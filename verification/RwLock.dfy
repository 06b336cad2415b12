/** The reader/writer lock (`uacpi_rw_lock_*`, `external/uacpi/source/mutex.c`) with any
    number of threads, one step per mutex operation or counter update.  Mutexes obey
    the contract of `kernel_api.h`: an acquire blocks, or fails with a host error. */
module RwLock {
  import opened Machine

  type Thread = nat

  datatype Pc =
    | Outside
    // uacpi_rw_lock_read
    | ReadEntry            // acquires read_mutex
    | Increment            // num_readers++
    | FirstReader          // acquires write_mutex
    | ReadExit(ok: bool)   // releases read_mutex
    | Reading
    // uacpi_rw_unlock_read
    | UnreadEntry          // acquires read_mutex
    | Decrement            // num_readers--
    | LastReader           // releases write_mutex
    | UnreadExit           // releases read_mutex
    // uacpi_rw_lock_write, uacpi_rw_unlock_write
    | WriteEntry           // acquires write_mutex
    | Writing
    | WriteExit            // releases write_mutex

  /** `write_mutex` is held by a writer, or by the readers as a group. */
  datatype Holder = Nobody | Writer(t: Thread) | ReaderGroup

  datatype State = State(pc: map<Thread, Pc>, readMutex: Option<Thread>, writeMutex: Holder, numReaders: nat)

  /** What a thread outside asks for, and whether an acquire hits a host error. */
  datatype Choice = Choice(write: bool, hostError: bool)

  predicate Init(s: State) {
    && (forall t :: t in s.pc ==> s.pc[t] == Outside)
    && s.readMutex == None && s.writeMutex == Nobody && s.numReaders == 0
  }

  /** One step of thread `t`; a thread blocked on a mutex stutters. */
  function Next(s: State, t: Thread, c: Choice): State {
    if t !in s.pc then s
    else
      match s.pc[t]
      case Outside => At(s, t, if c.write then WriteEntry else ReadEntry)
      case ReadEntry =>
        if c.hostError then At(s, t, Outside)
        else if s.readMutex == None then At(s, t, Increment).(readMutex := Some(t))
        else s
      case Increment =>
        At(s, t, if s.numReaders == 0 then FirstReader else ReadExit(true)).(numReaders := s.numReaders + 1)
      case FirstReader =>
        if c.hostError then At(s, t, ReadExit(false)).(numReaders := 0)
        else if s.writeMutex == Nobody then At(s, t, ReadExit(true)).(writeMutex := ReaderGroup)
        else s
      case ReadExit(ok) => At(s, t, if ok then Reading else Outside).(readMutex := None)
      case Reading => At(s, t, UnreadEntry)
      case UnreadEntry =>
        if c.hostError then At(s, t, Reading)
        else if s.readMutex == None then At(s, t, Decrement).(readMutex := Some(t))
        else s
      case Decrement =>
        At(s, t, if s.numReaders == 1 then LastReader else UnreadExit)
          .(numReaders := if s.numReaders == 0 then 0 else s.numReaders - 1)
      case LastReader => At(s, t, UnreadExit).(writeMutex := Nobody)
      case UnreadExit => At(s, t, Outside).(readMutex := None)
      case WriteEntry =>
        if c.hostError then At(s, t, Outside)
        else if s.writeMutex == Nobody then At(s, t, Writing).(writeMutex := Writer(t))
        else s
      case Writing => At(s, t, WriteExit)
      case WriteExit => At(s, t, Outside).(writeMutex := Nobody)
  }

  function At(s: State, t: Thread, p: Pc): State { s.(pc := s.pc[t := p]) }

  function Run(s: State, steps: seq<(Thread, Choice)>): State
    decreases |steps|
  {
    if steps == [] then s else Run(Next(s, steps[0].0, steps[0].1), steps[1..])
  }

  // ----- invariant -----

  /** Inside the lock as a reader: entered, and not yet given up. */
  predicate InsideReading(p: Pc) {
    p == ReadExit(true) || p.Reading? || p.UnreadEntry? || p.Decrement?
  }

  predicate InsideWriting(p: Pc) { p.Writing? || p.WriteExit? }

  /** Counted by `num_readers`: the readers inside, and the one waiting to let the group in. */
  predicate Counted(p: Pc) { InsideReading(p) || p.FirstReader? }

  predicate HoldsReadMutex(p: Pc) {
    p.Increment? || p.FirstReader? || p.ReadExit? || p.Decrement? || p.LastReader? || p.UnreadExit?
  }

  function CountedThreads(pc: map<Thread, Pc>): set<Thread> { set t | t in pc && Counted(pc[t]) }

  function ReadersInside(pc: map<Thread, Pc>): set<Thread> { set t | t in pc && InsideReading(pc[t]) }

  /** The thread in the `read_mutex` section, if any, is at `p`. */
  predicate ReadHolderAt(s: State, p: Pc) {
    s.readMutex.Some? && s.readMutex.value in s.pc && s.pc[s.readMutex.value] == p
  }

  predicate Inv(s: State) {
    && s.numReaders == |CountedThreads(s.pc)|
    && (forall t :: t in s.pc ==> (HoldsReadMutex(s.pc[t]) <==> s.readMutex == Some(t)))
    && (s.readMutex.Some? ==> s.readMutex.value in s.pc)
    && (forall t :: t in s.pc ==> (InsideWriting(s.pc[t]) <==> s.writeMutex == Writer(t)))
    && (s.writeMutex.Writer? ==> s.writeMutex.t in s.pc)
    && (ReadHolderAt(s, FirstReader) ==> s.numReaders == 1)
    && (ReadHolderAt(s, LastReader) ==> s.numReaders == 0)
    && (s.writeMutex == ReaderGroup <==>
          ReadHolderAt(s, LastReader) || (s.numReaders > 0 && !ReadHolderAt(s, FirstReader)))
  }

  lemma CountAfterStep(pc: map<Thread, Pc>, t: Thread, p: Pc)
    requires t in pc
    ensures |CountedThreads(pc[t := p])| ==
      |CountedThreads(pc)| - (if Counted(pc[t]) then 1 else 0) + (if Counted(p) then 1 else 0)
  {
    hide Counted;
    var now := pc[t := p];
    assert CountedThreads(now) - {t} == CountedThreads(pc) - {t};
    assert t in CountedThreads(pc) <==> Counted(pc[t]);
    assert t in CountedThreads(now) <==> Counted(p);
    Without(CountedThreads(pc), t);
    Without(CountedThreads(now), t);
  }

  lemma Without(s: set<Thread>, t: Thread)
    ensures |s - {t}| == |s| - (if t in s then 1 else 0)
  {}

  lemma CountPositive(pc: map<Thread, Pc>, t: Thread)
    requires t in pc && Counted(pc[t])
    ensures |CountedThreads(pc)| > 0
    ensures |CountedThreads(pc)| == 1 ==> forall u :: u in pc && Counted(pc[u]) ==> u == t
  {
    assert t in CountedThreads(pc);
    if |CountedThreads(pc)| == 1 {
      assert |CountedThreads(pc) - {t}| == 0;
      forall u | u in pc && Counted(pc[u])
        ensures u == t
      {
        assert u in CountedThreads(pc);
      }
    }
  }

  lemma CountFacts(s: State, t: Thread, u: State)
    requires t in s.pc && t in u.pc && u.pc == s.pc[t := u.pc[t]]
    ensures |CountedThreads(u.pc)| ==
      |CountedThreads(s.pc)| - (if Counted(s.pc[t]) then 1 else 0) + (if Counted(u.pc[t]) then 1 else 0)
    ensures Counted(s.pc[t]) ==> |CountedThreads(s.pc)| > 0
  {
    CountAfterStep(s.pc, t, u.pc[t]);
    if Counted(s.pc[t]) {
      CountPositive(s.pc, t);
    }
  }

  lemma EntryKeepsInv(s: State, t: Thread, c: Choice)
    requires Inv(s) && t in s.pc
    requires s.pc[t].ReadEntry? || s.pc[t].Increment?
    ensures Inv(Next(s, t, c))
  {
    hide CountedThreads;
    CountFacts(s, t, Next(s, t, c));
  }

  lemma FirstReaderKeepsInv(s: State, t: Thread, c: Choice)
    requires Inv(s) && t in s.pc
    requires s.pc[t].FirstReader? || s.pc[t].ReadExit?
    ensures Inv(Next(s, t, c))
  {
    hide CountedThreads;
    CountFacts(s, t, Next(s, t, c));
  }

  lemma UnreadKeepsInv(s: State, t: Thread, c: Choice)
    requires Inv(s) && t in s.pc
    requires s.pc[t].Reading? || s.pc[t].UnreadEntry? || s.pc[t].Decrement?
    ensures Inv(Next(s, t, c))
  {
    hide CountedThreads;
    CountFacts(s, t, Next(s, t, c));
  }

  lemma UnreadExitKeepsInv(s: State, t: Thread, c: Choice)
    requires Inv(s) && t in s.pc
    requires s.pc[t].LastReader? || s.pc[t].UnreadExit?
    ensures Inv(Next(s, t, c))
  {
    hide CountedThreads;
    CountFacts(s, t, Next(s, t, c));
  }

  lemma WriteKeepsInv(s: State, t: Thread, c: Choice)
    requires Inv(s) && t in s.pc
    requires s.pc[t].WriteEntry?
    ensures Inv(Next(s, t, c))
  {
    hide CountedThreads;
    CountFacts(s, t, Next(s, t, c));
  }

  lemma UnwriteKeepsInv(s: State, t: Thread, c: Choice)
    requires Inv(s) && t in s.pc
    requires s.pc[t].Writing? || s.pc[t].WriteExit?
    ensures Inv(Next(s, t, c))
  {
    hide CountedThreads;
    CountFacts(s, t, Next(s, t, c));
  }

  lemma ChoosingKeepsInv(s: State, t: Thread, c: Choice)
    requires Inv(s) && t in s.pc && s.pc[t].Outside?
    ensures Inv(Next(s, t, c))
  {
    hide CountedThreads;
    CountFacts(s, t, Next(s, t, c));
  }

  lemma StepKeepsInv(s: State, t: Thread, c: Choice)
    requires Inv(s)
    ensures Inv(Next(s, t, c))
  {
    if t in s.pc {
      match s.pc[t] {
        case ReadEntry => EntryKeepsInv(s, t, c);
        case Increment => EntryKeepsInv(s, t, c);
        case FirstReader => FirstReaderKeepsInv(s, t, c);
        case ReadExit(_) => FirstReaderKeepsInv(s, t, c);
        case Reading => UnreadKeepsInv(s, t, c);
        case UnreadEntry => UnreadKeepsInv(s, t, c);
        case Decrement => UnreadKeepsInv(s, t, c);
        case LastReader => UnreadExitKeepsInv(s, t, c);
        case UnreadExit => UnreadExitKeepsInv(s, t, c);
        case Outside => ChoosingKeepsInv(s, t, c);
        case WriteEntry => WriteKeepsInv(s, t, c);
        case _ => UnwriteKeepsInv(s, t, c);
      }
    }
  }

  lemma {:induction false} InvOnRuns(s: State, steps: seq<(Thread, Choice)>)
    requires Inv(s)
    ensures Inv(Run(s, steps))
    decreases |steps|
  {
    if steps != [] {
      StepKeepsInv(s, steps[0].0, steps[0].1);
      InvOnRuns(Next(s, steps[0].0, steps[0].1), steps[1..]);
    }
  }

  lemma InvOfInit(s: State)
    requires Init(s)
    ensures Inv(s)
  {
    assert CountedThreads(s.pc) == {};
  }

  /** Never a writer together with a reader, nor two writers. */
  lemma Exclusion(s: State, steps: seq<(Thread, Choice)>, a: Thread, b: Thread)
    requires Init(s)
    ensures var pc := Run(s, steps).pc;
      a in pc && b in pc && InsideWriting(pc[a]) ==>
        !InsideReading(pc[b]) && (InsideWriting(pc[b]) ==> a == b)
  {
    InvOfInit(s);
    InvOnRuns(s, steps);
    var t := Run(s, steps);
    if a in t.pc && b in t.pc && InsideWriting(t.pc[a]) && InsideReading(t.pc[b]) {
      CountPositive(t.pc, b);
      assert ReadHolderAt(t, FirstReader);
      CountPositive(t.pc, t.readMutex.value);
    }
  }

  /** Whenever `read_mutex` is free, `num_readers` is the number of readers inside, and
      it is positive exactly when the reader group holds `write_mutex`. */
  lemma CounterIsExact(s: State, steps: seq<(Thread, Choice)>)
    requires Init(s)
    ensures var t := Run(s, steps);
      t.readMutex == None ==>
        && t.numReaders == |ReadersInside(t.pc)|
        && (t.numReaders > 0 <==> t.writeMutex == ReaderGroup)
  {
    InvOfInit(s);
    InvOnRuns(s, steps);
    var t := Run(s, steps);
    if t.readMutex == None {
      assert ReadersInside(t.pc) == CountedThreads(t.pc);
    }
  }

  // ----- a free lock is granted -----

  predicate Holds(p: Pc) { InsideReading(p) || InsideWriting(p) || p.LastReader? }

  /** A writer at the door gets in at its next step exactly when no thread is inside, and
      no last reader has still to let go. */
  lemma WriterEntersExactly(s: State, t: Thread, write: bool)
    requires Inv(s) && t in s.pc && s.pc[t].WriteEntry?
    ensures Next(s, t, Choice(write, false)).pc[t] == Writing <==> forall u :: u in s.pc ==> !Holds(s.pc[u])
  {
    forall u | u in s.pc && Counted(s.pc[u])
      ensures |CountedThreads(s.pc)| > 0
      ensures |CountedThreads(s.pc)| == 1 ==> forall v :: v in s.pc && Counted(s.pc[v]) ==> v == u
    {
      CountPositive(s.pc, u);
    }
    if |CountedThreads(s.pc)| > 0 {
      var u :| u in CountedThreads(s.pc);
    }
  }

  /** `n` steps of one thread alone, without a host error. */
  function Alone(s: State, t: Thread, n: nat): (u: State)
    ensures u.pc.Keys == s.pc.Keys
    decreases n
  {
    if n == 0 then s else Alone(Next(s, t, Choice(false, false)), t, n - 1)
  }

  /** A reader at the door gets in by its own four steps exactly when no thread is in a
      section of the read mutex and no writer is inside.  Readers are no obstacle. */
  lemma ReaderEntersExactly(s: State, t: Thread)
    requires Inv(s) && t in s.pc && s.pc[t].ReadEntry?
    ensures InsideReading(Alone(s, t, 4).pc[t]) <==>
      forall u :: u in s.pc ==> !HoldsReadMutex(s.pc[u]) && !InsideWriting(s.pc[u])
  {
    ReadDoor(s, t);
    hide Inv, Next, Alone, HoldsReadMutex, InsideWriting, InsideReading, CountedThreads;
    FourSteps(s, t);
    if s.readMutex.Some? {
      Blocked(s, t);
    } else {
      DoorOpen(s, t);
    }
  }

  lemma FourSteps(s: State, t: Thread)
    ensures var c := Choice(false, false);
      Alone(s, t, 4) == Next(Next(Next(Next(s, t, c), t, c), t, c), t, c)
  {
    hide Next;
    var s1 := Next(s, t, Choice(false, false));
    var s2 := Next(s1, t, Choice(false, false));
    var s3 := Next(s2, t, Choice(false, false));
    assert Alone(s, t, 4) == Alone(s1, t, 3) == Alone(s2, t, 2) == Alone(s3, t, 1);
  }

  lemma Blocked(s: State, t: Thread)
    requires t in s.pc && s.pc[t].ReadEntry? && s.readMutex.Some?
    ensures Next(s, t, Choice(false, false)) == s && !InsideReading(s.pc[t])
  {}

  /** Past the read mutex only the first reader can be held up, by a writer. */
  lemma DoorOpen(s: State, t: Thread)
    requires t in s.pc && s.pc[t].ReadEntry? && s.readMutex == None
    ensures var c := Choice(false, false);
      var s4 := Next(Next(Next(Next(s, t, c), t, c), t, c), t, c);
      t in s4.pc && (InsideReading(s4.pc[t]) <==> s.numReaders > 0 || s.writeMutex == Nobody)
  {
    var c := Choice(false, false);
    var s2 := Next(Next(s, t, c), t, c);
    assert s2.pc[t] == (if s.numReaders == 0 then FirstReader else ReadExit(true)) && s2.writeMutex == s.writeMutex;
    var s3 := Next(s2, t, c);
    assert s3.pc[t] ==
      (if s.numReaders > 0 then Reading else if s.writeMutex == Nobody then ReadExit(true) else FirstReader);
    assert s3.pc[t].FirstReader? ==> s3 == s2;
  }

  /** The mutexes, read off the threads. */
  lemma ReadDoor(s: State, t: Thread)
    requires Inv(s) && t in s.pc && s.pc[t].ReadEntry?
    ensures s.readMutex == None <==> forall u :: u in s.pc ==> !HoldsReadMutex(s.pc[u])
    ensures s.readMutex == None && s.numReaders == 0 ==>
      (s.writeMutex == Nobody <==> forall u :: u in s.pc ==> !InsideWriting(s.pc[u]))
    ensures s.readMutex == None && s.numReaders > 0 ==>
      s.writeMutex == ReaderGroup && forall u :: u in s.pc ==> !InsideWriting(s.pc[u])
  {
    if s.readMutex.Some? {
      assert HoldsReadMutex(s.pc[s.readMutex.value]);
    }
    if s.writeMutex.Writer? {
      assert InsideWriting(s.pc[s.writeMutex.t]);
    }
  }

  // ----- no deadlock -----

  /** An upper bound of the steps a thread still takes to leave the lock. */
  function Rank(p: Pc): nat {
    match p
    case Outside => 0
    case ReadEntry => 9
    case Increment => 8
    case FirstReader => 7
    case ReadExit(ok) => if ok then 6 else 1
    case Reading => 5
    case UnreadEntry => 4
    case Decrement => 3
    case LastReader => 2
    case UnreadExit => 1
    case WriteEntry => 3
    case Writing => 2
    case WriteExit => 1
  }

  ghost function Tokens(pc: map<Thread, Pc>): set<(Thread, nat)> {
    set t, k: nat | t in pc && k < 10 && k < Rank(pc[t]) :: (t, k)
  }

  lemma FewerTokens(pc: map<Thread, Pc>, t: Thread, p: Pc)
    requires t in pc && Rank(p) < Rank(pc[t])
    ensures |Tokens(pc[t := p])| < |Tokens(pc)|
  {
    hide Rank;
    var now := pc[t := p];
    var spent := (t, Rank(p));
    assert Rank(pc[t]) < 10 by { RankBound(pc[t]); }
    assert spent in Tokens(pc) && spent !in Tokens(now);
    assert Tokens(now) <= Tokens(pc) - {spent};
    Smaller(Tokens(now), Tokens(pc) - {spent});
  }

  lemma RankBound(p: Pc)
    ensures Rank(p) < 10
  {}

  lemma Smaller(a: set<(Thread, nat)>, b: set<(Thread, nat)>)
    requires a <= b
    ensures |a| <= |b|
  {
    assert b == a + (b - a);
  }

  /** While some thread has not left, one of them gets on by a step that is not blocked. */
  lemma SomeoneMoves(s: State, t: Thread) returns (u: Thread)
    requires Inv(s) && t in s.pc && s.pc[t] != Outside
    ensures u in s.pc && Rank(Next(s, u, Choice(false, false)).pc[u]) < Rank(s.pc[u])
    ensures Next(s, u, Choice(false, false)).pc == s.pc[u := Next(s, u, Choice(false, false)).pc[u]]
  {
    hide CountedThreads;
    u := t;
    if s.writeMutex.Writer? {
      u := s.writeMutex.t;
    } else if s.readMutex.Some? {
      u := s.readMutex.value;
    } else if s.writeMutex.ReaderGroup? {
      u := AReader(s);
    }
  }

  lemma AReader(s: State) returns (u: Thread)
    requires s.numReaders == |CountedThreads(s.pc)| > 0
    ensures u in s.pc && Counted(s.pc[u])
  {
    u :| u in CountedThreads(s.pc);
  }

  lemma {:induction false} RunConcat(s: State, a: seq<(Thread, Choice)>, b: seq<(Thread, Choice)>)
    ensures Run(s, a + b) == Run(Run(s, a), b)
    decreases |a|
  {
    if a == [] {
      assert a + b == b;
    } else {
      assert (a + b)[1..] == a[1..] + b;
      RunConcat(Next(s, a[0].0, a[0].1), a[1..], b);
    }
  }

  ghost predicate WithoutErrors(steps: seq<(Thread, Choice)>) {
    forall i :: 0 <= i < |steps| ==> !steps[i].1.hostError
  }

  /** From every reachable state the threads inside can all leave, with no host error and
      no new request. */
  lemma {:induction false} AllCanLeave(s: State)
    requires Inv(s)
    ensures exists steps :: WithoutErrors(steps) && Run(s, steps).pc.Keys == s.pc.Keys && Empty(Run(s, steps))
    decreases |Tokens(s.pc)|
  {
    hide Inv, Tokens, Next, Rank;
    if Empty(s) {
      assert Run(s, []) == s;
    } else {
      var t :| t in s.pc && s.pc[t] != Outside;
      var u := SomeoneMoves(s, t);
      var c := Choice(false, false);
      var next := Next(s, u, c);
      FewerTokens(s.pc, u, next.pc[u]);
      StepKeepsInv(s, u, c);
      AllCanLeave(next);
      var rest :| WithoutErrors(rest) && Run(next, rest).pc.Keys == next.pc.Keys && Empty(Run(next, rest));
      var steps := [(u, c)] + rest;
      assert steps[1..] == rest && Run(s, steps) == Run(next, rest);
    }
  }

  ghost predicate Empty(s: State) { forall t :: t in s.pc ==> s.pc[t] == Outside }

  /** After every run, and wherever each thread is, any one thread can still come to hold
      the lock, as a writer or as a reader. */
  lemma EveryoneCanEnter(s: State, past: seq<(Thread, Choice)>, t: Thread, write: bool)
    requires Init(s) && t in Run(s, past).pc
    ensures exists steps ::
      && WithoutErrors(steps) && t in Run(s, past + steps).pc
      && Run(s, past + steps).pc[t] == if write then Writing else Reading
  {
    hide Inv, Next;
    InvOfInit(s);
    InvOnRuns(s, past);
    var now := Run(s, past);
    AllCanLeave(now);
    var leave :| WithoutErrors(leave) && Run(now, leave).pc.Keys == now.pc.Keys && Empty(Run(now, leave));
    InvOnRuns(now, leave);
    var enter := EnterEmpty(Run(now, leave), t, write);
    RunConcat(now, leave, enter);
    RunConcat(s, past, leave + enter);
    assert WithoutErrors(leave + enter);
  }

  /** The steps of a thread that finds the lock empty. */
  lemma EnterEmpty(s: State, t: Thread, write: bool) returns (steps: seq<(Thread, Choice)>)
    requires Inv(s) && Empty(s) && t in s.pc
    ensures WithoutErrors(steps) && t in Run(s, steps).pc
    ensures Run(s, steps).pc[t] == if write then Writing else Reading
  {
    var c := Choice(write, false);
    assert CountedThreads(s.pc) == {};
    var s1 := Next(s, t, c);
    var s2 := Next(s1, t, c);
    if write {
      steps := [(t, c), (t, c)];
      assert Run(s, steps) == Run(s1, [(t, c)]) == Run(s2, []);
    } else {
      var s3 := Next(s2, t, c);
      var s4 := Next(s3, t, c);
      var s5 := Next(s4, t, c);
      steps := [(t, c), (t, c), (t, c), (t, c), (t, c)];
      assert Run(s4, [(t, c)]) == Run(s5, []);
      assert Run(s, steps) == Run(s1, steps[1..]) == Run(s2, steps[2..]) == Run(s3, steps[3..]) == Run(s4, [(t, c)]);
    }
  }
}
