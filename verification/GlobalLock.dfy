/** The firmware global lock (`external/uacpi/source/mutex.c`, `event.c`), as a state
    machine with one step per atomic operation.  The three parties are the one OS
    thread that holds the native lock mutex, the firmware, and the SCI handler.  The
    firmware follows section 5.2.10.1 of the ACPI specification 6.5.  Spinlocks and
    events obey the contract of `kernel_api.h`. */
module GlobalLock {

  // ----- the lock word -----

  const MAX_SPINS: nat := 0xFFFF

  type u32 = x: int | 0 <= x < 0x1_0000_0000

  /** GLOBAL_LOCK_OWNED is bit 1, GLOBAL_LOCK_PENDING bit 0. */
  predicate IsOwned(w: u32) { w / 2 % 2 == 1 }
  predicate IsPending(w: u32) { w % 2 == 1 }

  /** `w & ~GLOBAL_LOCK_MASK`: the thirty bits that are not the lock's. */
  function Rest(w: u32): u32 { w - w % 4 }

  /** The word an acquirer stores: owned, and pending if it was owned already. */
  function Acquiring(w: u32): u32 { Rest(w) + 2 + (if IsOwned(w) then 1 else 0) }

  /** The word a releaser stores. */
  function Releasing(w: u32): u32 { Rest(w) }

  lemma WordFacts(w: u32)
    ensures IsOwned(Acquiring(w)) && (IsPending(Acquiring(w)) <==> IsOwned(w))
    ensures !IsOwned(Releasing(w)) && !IsPending(Releasing(w))
    ensures Rest(Acquiring(w)) == Rest(w) && Rest(Releasing(w)) == Rest(w)
  {
    var q := w / 4;
    LowBits(q, w % 4);
    LowBits(q, 0);
    LowBits(q, 2);
    LowBits(q, 3);
    assert w == 4 * q + w % 4;
  }

  lemma LowBits(q: nat, r: nat)
    requires r < 4
    ensures (4 * q + r) / 2 % 2 == r / 2 && (4 * q + r) % 2 == r % 2 && (4 * q + r) % 4 == r
  {
    assert (4 * q + r) / 2 == 2 * q + r / 2;
  }

  // ----- states -----

  /** Where the OS thread is in acquire and release (`spins` counts attempts). */
  datatype Os =
    | Idle
    | WantSpin(spins: nat)
    | Read(spins: nat)
    | Cas(spins: nat, value: u32)
    | SetFlag(spins: nat)
    | Unlock(spins: nat)
    | Wait(spins: nat)
    | Finish(success: bool)
    | Owner
    | RelRead
    | RelCas(value: u32)
    | RelNotify(pending: bool)

  datatype Firmware =
    | Away
    | Try(value: u32)
    | Waiting
    | Holder
    | Leave(value: u32)
    | Notify(pending: bool)

  /** The SCI handler, `handle_global_lock`. */
  datatype Sci = Quiet | Spin | Check | Signal | Clear | Done

  datatype Spinlock = Open | HeldByOs | HeldBySci

  datatype State = State(
    lock: u32,
    spinlock: Spinlock,
    /** `global_lock_pending` */
    flag: bool,
    /** The counter of `global_lock_event`. */
    events: nat,
    /** Release notifications raised by the firmware and not yet taken. */
    raised: nat,
    /** A release notification written by the OS and not yet seen by the firmware. */
    gblRls: bool,
    os: Os, fw: Firmware, sci: Sci)

  datatype Action = OsStep | FirmwareStep | SciStep

  predicate Init(s: State) {
    && !IsOwned(s.lock) && s.spinlock == Open && !s.flag && s.events == 0 && s.raised == 0
    && s.os == Idle && s.fw == Away && s.sci == Quiet
  }

  // ----- steps; a blocked or finished party stutters -----

  function OsNext(s: State): State {
    match s.os
    case Idle => s.(os := WantSpin(0))
    case WantSpin(n) =>
      if s.spinlock == Open then s.(spinlock := HeldByOs, os := Read(n + 1)) else s
    case Read(n) => s.(os := Cas(n, s.lock))
    case Cas(n, value) =>
      if s.lock != value then s.(os := Cas(n, s.lock))
      else
        var t := s.(lock := Acquiring(value));
        if !IsOwned(value) then t.(os := Finish(true))
        else if n == MAX_SPINS then t.(os := Finish(false))
        else t.(os := SetFlag(n))
    case SetFlag(n) => s.(flag := true, os := Unlock(n))
    case Unlock(n) => s.(spinlock := Open, os := Wait(n))
    case Wait(n) =>
      if s.events > 0 then s.(events := s.events - 1, os := WantSpin(n)) else s
    case Finish(success) =>
      s.(flag := false, spinlock := Open, os := if success then Owner else Idle)
    case Owner => s.(os := RelRead)
    case RelRead => s.(os := RelCas(s.lock))
    case RelCas(value) =>
      if s.lock != value then s.(os := RelCas(s.lock))
      else s.(lock := Releasing(value), os := RelNotify(IsPending(value)))
    case RelNotify(pending) => s.(gblRls := s.gblRls || pending, os := Idle)
  }

  function FirmwareNext(s: State): State {
    match s.fw
    case Away => s.(fw := Try(s.lock))
    case Try(value) =>
      if s.lock != value then s.(fw := Try(s.lock))
      else s.(lock := Acquiring(value), fw := if IsOwned(value) then Waiting else Holder)
    case Waiting => if s.gblRls then s.(gblRls := false, fw := Try(s.lock)) else s
    case Holder => s.(fw := Leave(s.lock))
    case Leave(value) =>
      if s.lock != value then s.(fw := Leave(s.lock))
      else s.(lock := Releasing(value), fw := Notify(IsPending(value)))
    case Notify(pending) => s.(raised := s.raised + (if pending then 1 else 0), fw := Away)
  }

  function SciNext(s: State): State {
    match s.sci
    case Quiet => if s.raised > 0 then s.(raised := s.raised - 1, sci := Spin) else s
    case Spin => if s.spinlock == Open then s.(spinlock := HeldBySci, sci := Check) else s
    case Check => s.(sci := if s.flag then Signal else Done)
    case Signal => s.(events := s.events + 1, sci := Clear)
    case Clear => s.(flag := false, sci := Done)
    case Done => s.(spinlock := Open, sci := Quiet)
  }

  function Next(s: State, a: Action): State {
    match a
    case OsStep => OsNext(s)
    case FirmwareStep => FirmwareNext(s)
    case SciStep => SciNext(s)
  }

  /** The state after any interleaving of steps. */
  function Run(s: State, actions: seq<Action>): State
    decreases |actions|
  {
    if actions == [] then s else Run(Next(s, actions[0]), actions[1..])
  }

  // ----- what holds in every reachable state -----

  predicate OsOwns(s: State) {
    s.os == Finish(true) || s.os.Owner? || s.os.RelRead? || s.os.RelCas?
  }

  predicate FirmwareOwns(s: State) { s.fw.Holder? || s.fw.Leave? }

  /** The OS has decided to wait for the firmware and has not been woken. */
  predicate OsWaits(s: State) { s.os.SetFlag? || s.os.Unlock? || s.os.Wait? }

  /** A release notification is on its way to the handler's `signal_event`. */
  predicate InFlight(s: State) {
    s.fw == Notify(true) || s.raised > 0 || s.sci.Spin? || s.sci.Check? || s.sci.Signal?
  }

  /** One event is owed to a waiting OS: still announced by the flag, or already signalled. */
  function Tokens(s: State): nat {
    (if s.flag && !s.sci.Clear? then 1 else 0) + s.events
  }

  /** The lock word tells whether the lock is owned, and only one party owns it. */
  predicate Owners(s: State) {
    && (IsOwned(s.lock) <==> OsOwns(s) || FirmwareOwns(s))
    && !(OsOwns(s) && FirmwareOwns(s))
  }

  predicate Spinning(s: State) {
    && (s.spinlock == HeldByOs <==>
          s.os.Read? || s.os.Cas? || s.os.SetFlag? || s.os.Unlock? || s.os.Finish?)
    && (s.spinlock == HeldBySci <==> s.sci.Check? || s.sci.Signal? || s.sci.Clear? || s.sci.Done?)
    && (s.sci.Signal? || s.sci.Clear? ==> s.flag)
  }

  /** Exactly one wake-up per wait. */
  predicate OneToken(s: State) {
    Tokens(s) == if s.os.Unlock? || s.os.Wait? then 1 else 0
  }

  /** No lost wake-up, either way. */
  predicate Wakeups(s: State) {
    && (OsWaits(s) && s.events == 0 ==> (FirmwareOwns(s) && IsPending(s.lock)) || InFlight(s))
    && (s.fw.Waiting? ==> (OsOwns(s) && IsPending(s.lock)) || s.os == RelNotify(true) || s.gblRls)
  }

  predicate Inv(s: State) { Owners(s) && Spinning(s) && OneToken(s) && Wakeups(s) }

  lemma OsKeepsOwners(s: State)
    requires Owners(s)
    ensures Owners(OsNext(s)) && Rest(OsNext(s).lock) == Rest(s.lock)
  {
    WordFacts(s.lock);
    hide IsOwned, IsPending, Rest, Acquiring, Releasing;
  }

  lemma OsKeepsSpinning(s: State)
    requires Spinning(s) && OneToken(s)
    ensures Spinning(OsNext(s)) && OneToken(OsNext(s))
  {
    hide IsOwned, IsPending, Acquiring, Releasing;
  }

  lemma OsKeepsWakeups(s: State)
    requires Inv(s)
    ensures Wakeups(OsNext(s))
  {
    WordFacts(s.lock);
    hide IsOwned, IsPending, Acquiring, Releasing;
  }

  lemma OsKeepsInv(s: State)
    requires Inv(s)
    ensures Inv(OsNext(s)) && Rest(OsNext(s).lock) == Rest(s.lock)
  {
    hide OsNext, Owners, Spinning, OneToken, Wakeups, Rest;
    OsKeepsOwners(s);
    OsKeepsSpinning(s);
    OsKeepsWakeups(s);
  }

  lemma FirmwareKeepsOwners(s: State)
    requires Owners(s)
    ensures Owners(FirmwareNext(s)) && Rest(FirmwareNext(s).lock) == Rest(s.lock)
  {
    WordFacts(s.lock);
    hide IsOwned, IsPending, Rest, Acquiring, Releasing;
  }

  lemma FirmwareKeepsRest(s: State)
    requires Inv(s)
    ensures Spinning(FirmwareNext(s)) && OneToken(FirmwareNext(s)) && Wakeups(FirmwareNext(s))
  {
    WordFacts(s.lock);
    hide IsOwned, IsPending, Acquiring, Releasing;
  }

  lemma FirmwareKeepsInv(s: State)
    requires Inv(s)
    ensures Inv(FirmwareNext(s)) && Rest(FirmwareNext(s).lock) == Rest(s.lock)
  {
    FirmwareKeepsOwners(s);
    FirmwareKeepsRest(s);
    hide FirmwareNext, Owners, Spinning, OneToken, Wakeups, Rest;
  }

  lemma SciKeepsInv(s: State)
    requires Inv(s)
    ensures Inv(SciNext(s)) && SciNext(s).lock == s.lock
  {
    hide IsOwned, IsPending;
  }

  /** Every interleaving keeps the invariant, and the 30 bits of the word that are not
      the lock's never change. */
  lemma {:induction false} InvOnRuns(s: State, actions: seq<Action>)
    requires Inv(s)
    ensures Inv(Run(s, actions)) && Rest(Run(s, actions).lock) == Rest(s.lock)
    decreases |actions|
  {
    hide OsNext, FirmwareNext, SciNext, Inv, Rest;
    if actions != [] {
      match actions[0] {
        case OsStep => OsKeepsInv(s);
        case FirmwareStep => FirmwareKeepsInv(s);
        case SciStep => SciKeepsInv(s);
      }
      InvOnRuns(Next(s, actions[0]), actions[1..]);
    }
  }

  /** In every interleaving the OS and the firmware never both own the lock. */
  lemma MutualExclusion(s: State, actions: seq<Action>)
    requires Init(s)
    ensures var t := Run(s, actions); !(OsOwns(t) && FirmwareOwns(t))
  {
    InvOnRuns(s, actions);
  }

  /** In every interleaving, while the OS waits, either the firmware owns the lock with
      the pending bit set, or a release notification is in flight, or the event is
      signalled. */
  lemma NoLostWakeup(s: State, actions: seq<Action>)
    requires Init(s)
    ensures var t := Run(s, actions);
      OsWaits(t) ==> (FirmwareOwns(t) && IsPending(t.lock)) || InFlight(t) || t.events > 0
  {
    InvOnRuns(s, actions);
  }

  // ----- the wait can always end -----

  /** The step that brings a waiting OS closer to its event. */
  function Rescue(s: State): Action {
    if !s.os.Wait? || s.events > 0 then OsStep
    else if s.sci.Quiet? && s.raised == 0 then FirmwareStep
    else SciStep
  }

  /** How many such steps are left at most. */
  function Distance(s: State): nat {
    (if s.os.SetFlag? then 2 else if s.os.Unlock? then 1 else 0)
    + (if s.events > 0 then 0
       else match s.sci
         case Signal => 1
         case Check => 2
         case Spin => 3
         case Quiet =>
           if s.raised > 0 then 4
           else if s.fw.Notify? then 5
           else if s.fw.Leave? then (if s.fw.value == s.lock then 6 else 7)
           else 8
         case _ => 9)
  }

  lemma RescueStep(s: State)
    requires Inv(s) && OsWaits(s)
    ensures var t := Next(s, Rescue(s));
      if s.os.Wait? && s.events > 0 then t.os == WantSpin(s.os.spins)
      else OsWaits(t) && t.os.spins == s.os.spins && Distance(t) < Distance(s)
  {}

  /** A waiting OS is never stuck: from every reachable state the other parties, doing
      only what they are about to do, bring it back to its next attempt. */
  lemma {:induction false} WaitCanEnd(s: State) returns (actions: seq<Action>)
    requires Inv(s) && OsWaits(s)
    ensures Run(s, actions).os == WantSpin(s.os.spins)
    decreases Distance(s)
  {
    hide OsNext, FirmwareNext, SciNext, Inv, Distance, Rescue;
    RescueStep(s);
    var t := Next(s, Rescue(s));
    if OsWaits(t) {
      InvOnRuns(s, [Rescue(s)]);
      assert Run(s, [Rescue(s)]) == Run(t, []);
      var rest := WaitCanEnd(t);
      actions := [Rescue(s)] + rest;
      assert actions[1..] == rest;
    } else {
      actions := [Rescue(s)];
      assert Run(t, actions[1..]) == t;
    }
  }

  /** At most one wake-up is ever pending, and none outside a wait. */
  lemma NoSpuriousEvents(s: State, actions: seq<Action>)
    requires Init(s)
    ensures var t := Run(s, actions); t.events <= 1 && (t.events > 0 ==> t.os.Unlock? || t.os.Wait?)
  {
    InvOnRuns(s, actions);
  }

  // ----- giving up, and getting the lock -----

  lemma {:induction false} RunLast(s: State, actions: seq<Action>, a: Action)
    ensures Run(s, actions + [a]) == Next(Run(s, actions), a)
    decreases |actions|
  {
    if actions == [] {
      assert [] + [a] == [a] && Run(Next(s, a), [a][1..]) == Next(s, a);
    } else {
      assert (actions + [a])[1..] == actions[1..] + [a];
      RunLast(Next(s, actions[0]), actions[1..], a);
    }
  }

  lemma {:induction false} RunJoin(s: State, a: seq<Action>, b: seq<Action>)
    ensures Run(s, a + b) == Run(Run(s, a), b)
    decreases |a|
  {
    if a == [] {
      assert a + b == b;
    } else {
      assert (a + b)[1..] == a[1..] + b;
      RunJoin(Next(s, a[0]), a[1..], b);
    }
  }

  /** The step is an exchange by the OS that takes effect and finds the lock owned. */
  predicate FindsOwned(s: State, a: Action) {
    a == OsStep && s.os.Cas? && s.lock == s.os.value && IsOwned(s.lock)
  }

  /** How often the acquire under way has found the lock owned, counted on the run. */
  function Refusals(s: State, actions: seq<Action>): nat {
    if actions == [] then 0
    else
      var before, a := Run(s, actions[..|actions| - 1]), actions[|actions| - 1];
      if a == OsStep && before.os.Idle? then 0
      else Refusals(s, actions[..|actions| - 1]) + (if FindsOwned(before, a) then 1 else 0)
  }

  /** The attempt counter is that count, and it stops short of the limit until the end. */
  ghost predicate Counts(os: Os, refusals: nat) {
    match os
    case WantSpin(n) => refusals == n < 65535
    case Read(n) => refusals + 1 == n <= 65535
    case Cas(n, _) => refusals + 1 == n <= 65535
    case SetFlag(n) => refusals == n < 65535
    case Unlock(n) => refusals == n < 65535
    case Wait(n) => refusals == n < 65535
    case Finish(success) => !success ==> refusals == 65535
    case _ => true
  }

  lemma StepCounts(s: State, a: Action, n: nat)
    requires Counts(s.os, n)
    ensures Counts(Next(s, a).os,
      if a == OsStep && s.os.Idle? then 0 else n + (if FindsOwned(s, a) then 1 else 0))
  {
    hide IsOwned, IsPending, Acquiring, Releasing;
  }

  lemma {:induction false} AttemptsAreRefusals(s: State, actions: seq<Action>)
    requires Init(s)
    ensures Counts(Run(s, actions).os, Refusals(s, actions))
    decreases |actions|
  {
    if actions != [] {
      var front, a := actions[..|actions| - 1], actions[|actions| - 1];
      AttemptsAreRefusals(s, front);
      assert actions == front + [a];
      RunLast(s, front, a);
      hide FindsOwned, Run, Next, Counts;
      StepCounts(Run(s, front), a, Refusals(s, front));
    }
  }

  /** The OS gives up only after 65535 attempts of the same acquire found the lock owned. */
  lemma GivesUpAtLast(s: State, actions: seq<Action>)
    requires Init(s) && Run(s, actions).os == Finish(false)
    ensures Refusals(s, actions) == 65535
  {
    AttemptsAreRefusals(s, actions);
  }

  /** An attempt that finds the lock owned before that goes on to the wait, with the flag
      and the pending bit set, by three steps of its own. */
  lemma OwnedThenWaits(s: State, actions: seq<Action>)
    requires Init(s) && FindsOwned(Run(s, actions), OsStep) && Refusals(s, actions) < 65534
    ensures var t := Run(s, actions + [OsStep, OsStep, OsStep]);
      t.os.Wait? && t.flag && IsPending(t.lock) && IsOwned(t.lock)
  {
    AttemptsAreRefusals(s, actions);
    var t := Run(s, actions);
    WordFacts(t.lock);
    RunJoin(s, actions, [OsStep, OsStep, OsStep]);
    ThreeSteps(t);
  }

  lemma ThreeSteps(t: State)
    ensures Run(t, [OsStep, OsStep, OsStep]) == OsNext(OsNext(OsNext(t)))
  {
    assert [OsStep, OsStep, OsStep][1..] == [OsStep, OsStep];
    assert [OsStep, OsStep][1..] == [OsStep];
    assert Run(OsNext(OsNext(OsNext(t))), [OsStep][1..]) == OsNext(OsNext(OsNext(t)));
  }

  /** The OS does get to wait: the firmware takes the lock, then the OS asks for it. */
  lemma AWait(s: State)
    requires Init(s)
    ensures var t := Run(s, [FirmwareStep, FirmwareStep] + [OsStep, OsStep, OsStep] + [OsStep, OsStep, OsStep]);
      t.os == Wait(1) && t.flag && FirmwareOwns(t) && IsOwned(t.lock) && IsPending(t.lock) && t.events == 0
  {
    var two := [FirmwareStep, FirmwareStep];
    var three := [OsStep, OsStep, OsStep];
    RunJoin(s, two + three, three);
    RunJoin(s, two, three);
    assert two[1..] == [FirmwareStep];
    var f := FirmwareNext(FirmwareNext(s));
    assert Run(f, [FirmwareStep][1..]) == f && Run(s, two) == f;
    WordFacts(s.lock);
    WordFacts(f.lock);
    ThreeSteps(f);
    ThreeSteps(OsNext(OsNext(OsNext(f))));
  }

  /** The step, of another party until the lock and the spinlock are free, that brings an
      asking OS closer to owning. */
  function Yielding(s: State): Action {
    if FirmwareOwns(s) then FirmwareStep else if s.spinlock == HeldBySci then SciStep else OsStep
  }

  function ToOwner(s: State): nat {
    (match s.fw case Holder => 10 case Leave(value) => if value == s.lock then 9 else 11 case _ => 0)
    + (match s.sci case Check => 12 case Signal => 3 case Clear => 2 case Done => 1 case _ => 0)
    + (match s.os
       case WantSpin(_) => 4
       case Read(_) => 3
       case Cas(_, value) => if value == s.lock then 1 else 2
       case Finish(_) => 0
       case _ => 0)
  }

  /** The OS asks for the lock, and nothing has refused it since. */
  predicate Asking(s: State) {
    s.os.WantSpin? || (!FirmwareOwns(s) && (s.os.Read? || s.os.Cas?)) || s.os == Finish(true)
  }

  lemma YieldingStep(s: State)
    requires Inv(s) && Asking(s)
    ensures var t := Next(s, Yielding(s));
      if s.os == Finish(true) && Yielding(s) == OsStep then t.os == Owner
      else Asking(t) && ToOwner(t) < ToOwner(s)
  {
    WordFacts(s.lock);
    hide IsPending, Rest;
  }

  /** An OS that asks for the lock can get it. */
  lemma {:induction false} AskingCanOwn(s: State) returns (actions: seq<Action>)
    requires Inv(s) && Asking(s)
    ensures Run(s, actions).os == Owner
    decreases ToOwner(s)
  {
    hide OsNext, FirmwareNext, SciNext, Inv, ToOwner, Yielding, Asking;
    YieldingStep(s);
    var a := Yielding(s);
    var t := Next(s, a);
    if t.os == Owner {
      actions := [a];
      assert Run(t, actions[1..]) == t;
    } else {
      InvOnRuns(s, [a]);
      assert Run(s, [a]) == Run(t, []);
      var rest := AskingCanOwn(t);
      actions := [a] + rest;
      assert actions[1..] == rest;
    }
  }

  /** From every reachable wait some continuation ends with the OS owning the lock. */
  lemma WaitCanOwn(s: State, actions: seq<Action>) returns (more: seq<Action>)
    requires Init(s) && OsWaits(Run(s, actions))
    ensures Run(s, actions + more).os == Owner
  {
    hide Inv, OsWaits, Asking;
    InvOfInit(s);
    InvOnRuns(s, actions);
    var t := Run(s, actions);
    var wait := WaitCanEnd(t);
    InvOnRuns(t, wait);
    AskingAtStart(Run(t, wait));
    var own := AskingCanOwn(Run(t, wait));
    more := wait + own;
    RunJoin(t, wait, own);
    RunJoin(s, actions, more);
  }

  lemma InvOfInit(s: State)
    requires Init(s)
    ensures Inv(s)
  {}

  lemma AskingAtStart(s: State)
    requires s.os.WantSpin?
    ensures Asking(s)
  {}
}
