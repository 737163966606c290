/** Threads that pass a gate kept by one mutex, one condition variable and two counters: the
    reader/writer program read_cdv/write_cdv, where every thread passes once, and the counter
    program cnd_add_shared_variable, where every thread is a writer and passes many times. A
    state is what the threads share and where each thread stands; a move is one indivisible
    action of one thread. `pthread_cond_signal` wakes one sleeping thread if there is one; a
    woken thread must take the mutex again before it looks at the counters. */
module ConditionGate {
  import opened ThreadSums

  datatype Kind = Reader | Writer

  datatype Pc =
    | Start      // about to lock the mutex, or finished if no round is left
    | Test       // holds the mutex, at the condition of the while loop
    | Asleep     // inside pthread_cond_wait
    | Woken      // signalled, about to lock the mutex again
    | Counted    // has counted itself in, about to unlock
    | Body       // critical section
    | Loaded     // writer: has read the shared variable
    | Leaving    // about to lock the mutex
    | Back       // holds the mutex, about to count itself out
    | Left       // about to signal
    | Signalled  // about to unlock
    | Done

  datatype Thread = Thread(kind: Kind, pc: Pc, rounds: nat, reg: int)

  /** `mutex` is the thread that holds it, -1 if it is free. */
  datatype State = State(ts: seq<Thread>, mutex: int, readers: int, writers: int, shared: int)

  datatype Move = Act(i: nat) | Signal(i: nat, waked: int) | Spurious(i: nat)

  // ----- the program --------------------------------------------------------------------

  predicate Inside(t: Thread) {
    t.pc == Counted || t.pc == Body || t.pc == Loaded || t.pc == Leaving || t.pc == Back
  }

  function ReaderIn(t: Thread): int { if Inside(t) && t.kind == Reader then 1 else 0 }

  function WriterIn(t: Thread): int { if Inside(t) && t.kind == Writer then 1 else 0 }

  predicate Holds(t: Thread) {
    t.pc == Test || t.pc == Counted || t.pc == Back || t.pc == Left || t.pc == Signalled
  }

  predicate NeedsMutex(t: Thread) {
    (t.pc == Start && t.rounds > 0) || t.pc == Woken || t.pc == Leaving
  }

  /** The condition a thread waits on. */
  predicate Blocked(s: State, k: Kind) {
    if k == Reader then s.writers != 0 else s.readers != 0 || s.writers != 0
  }

  predicate SomeAsleep(s: State) {
    exists j :: 0 <= j < |s.ts| && s.ts[j].pc == Asleep
  }

  predicate Enabled(s: State, m: Move) {
    match m
    case Act(i) =>
      && i < |s.ts| && s.ts[i].pc != Done && s.ts[i].pc != Asleep && s.ts[i].pc != Left
      && (NeedsMutex(s.ts[i]) ==> s.mutex == -1)
    case Signal(i, j) =>
      && i < |s.ts| && s.ts[i].pc == Left
      && (if SomeAsleep(s) then 0 <= j < |s.ts| && s.ts[j].pc == Asleep else j == -1)
    case Spurious(i) => i < |s.ts| && s.ts[i].pc == Asleep
  }

  function Goto(s: State, i: nat, pc: Pc): State
    requires i < |s.ts|
  {
    s.(ts := s.ts[i := s.ts[i].(pc := pc)])
  }

  /** What thread `i` does next, other than signalling. */
  function Acted(s: State, i: nat): State
    requires Enabled(s, Act(i))
  {
    var t := s.ts[i];
    match t.pc
    case Start => if t.rounds == 0 then Goto(s, i, Done) else Goto(s, i, Test).(mutex := i)
    case Test =>
      if Blocked(s, t.kind) then Goto(s, i, Asleep).(mutex := -1)
      else if t.kind == Reader then Goto(s, i, Counted).(readers := s.readers + 1)
      else Goto(s, i, Counted).(writers := s.writers + 1)
    case Woken => Goto(s, i, Test).(mutex := i)
    case Counted => Goto(s, i, Body).(mutex := -1)
    case Body =>
      if t.kind == Reader then Goto(s, i, Leaving)
      else s.(ts := s.ts[i := t.(pc := Loaded, reg := s.shared)])
    case Loaded => Goto(s, i, Leaving).(shared := t.reg + 1)
    case Leaving => Goto(s, i, Back).(mutex := i)
    case Back =>
      if t.kind == Reader then Goto(s, i, Left).(readers := s.readers - 1)
      else Goto(s, i, Left).(writers := s.writers - 1)
    case Signalled =>
      s.(ts := s.ts[i := t.(pc := Start, rounds := if t.rounds == 0 then 0 else t.rounds - 1)], mutex := -1)
    case _ => s
  }

  function Next(s: State, m: Move): State
    requires Enabled(s, m)
  {
    match m
    case Act(i) => Acted(s, i)
    case Signal(i, j) =>
      var s1 := Goto(s, i, Signalled);
      if j >= 0 then Goto(s1, j, Woken) else s1
    case Spurious(i) => Goto(s, i, Woken)
  }

  ghost predicate Init(s: State) {
    && s.mutex == -1 && s.readers == 0 && s.writers == 0
    && forall i :: 0 <= i < |s.ts| ==> s.ts[i].pc == Start
  }

  // ----- what every reachable state keeps ------------------------------------------------

  /** Someone is inside, or will look at the counters again, or is about to signal. */
  predicate Active(t: Thread) {
    Inside(t) || t.pc == Woken || t.pc == Test || t.pc == Left
  }

  /** Increments a thread still has to make. */
  function Pending(t: Thread): int {
    if t.kind == Reader then 0
    else if t.pc == Leaving || t.pc == Back || t.pc == Left || t.pc == Signalled then t.rounds - 1
    else t.rounds
  }

  ghost predicate ThreadOk(s: State, i: nat)
    requires i < |s.ts|
  {
    var t := s.ts[i];
    && (Holds(t) ==> s.mutex == i)
    && (t.pc == Loaded ==> t.kind == Writer && t.reg == s.shared)
    && (t.pc != Start && t.pc != Done ==> t.rounds > 0)
    && (t.pc == Done ==> t.rounds == 0)
  }

  /** No wake-up is lost: a sleeping thread is never alone. */
  ghost predicate WakeComing(s: State) {
    SomeAsleep(s) ==> exists j :: 0 <= j < |s.ts| && Active(s.ts[j])
  }

  ghost predicate Inv(s: State, total: int) {
    && (s.mutex == -1 || (0 <= s.mutex < |s.ts| && Holds(s.ts[s.mutex])))
    && (forall i :: 0 <= i < |s.ts| ==> ThreadOk(s, i))
    && s.readers == Sum(ReaderIn, s.ts) && s.writers == Sum(WriterIn, s.ts)
    && s.writers <= 1 && (s.writers == 1 ==> s.readers == 0)
    && s.shared + Sum(Pending, s.ts) == total
    && WakeComing(s)
  }

  // ----- one move keeps it ---------------------------------------------------------------

  /** A sum after a move: the mover's share changes, and a signal may change the sleeper's. */
  lemma SumNext(f: Thread -> int, s: State, m: Move)
    requires Enabled(s, m)
    ensures Sum(f, Next(s, m).ts) == Sum(f, s.ts) - f(s.ts[m.i]) + f(Next(s, m).ts[m.i])
      + (if m.Signal? && m.waked >= 0 then f(Next(s, m).ts[m.waked]) - f(s.ts[m.waked]) else 0)
  {
    var s' := Next(s, m);
    SumUpdate(f, s.ts, m.i, s'.ts[m.i]);
    if m.Signal? && m.waked >= 0 {
      SumUpdate(f, s.ts[m.i := s'.ts[m.i]], m.waked, s'.ts[m.waked]);
    }
    assert s.ts[m.i := s.ts[m.i]] == s.ts;
  }

  /** No other thread is inside next to a writer. */
  lemma WriterAlone(s: State, total: int, i: nat, j: nat)
    requires Inv(s, total) && i < |s.ts| && j < |s.ts| && i != j
    requires Inside(s.ts[i]) && s.ts[i].kind == Writer
    ensures !Inside(s.ts[j])
  {
    SumAtLeast(WriterIn, s.ts, i);
    SumAtLeast(ReaderIn, s.ts, j);
    if i < j {
      SumTwo(WriterIn, s.ts, i, j);
    } else {
      SumTwo(WriterIn, s.ts, j, i);
    }
  }

  lemma ThreadsKept(s: State, total: int, m: Move, j: nat)
    requires Inv(s, total) && Enabled(s, m) && j < |s.ts|
    ensures ThreadOk(Next(s, m), j)
  {
    hide Sum, WakeComing, Blocked, SomeAsleep;
    assert ThreadOk(s, j) && ThreadOk(s, m.i);
    if m.Act? && s.ts[m.i].pc == Loaded && m.i != j && s.ts[j].pc == Loaded {
      WriterAlone(s, total, m.i, j);
    }
  }

  lemma MutexKept(s: State, total: int, m: Move)
    requires Inv(s, total) && Enabled(s, m)
    ensures var s' := Next(s, m); s'.mutex == -1 || (0 <= s'.mutex < |s'.ts| && Holds(s'.ts[s'.mutex]))
  {
    hide Sum, WakeComing, Blocked, SomeAsleep;
    assert ThreadOk(s, m.i);
  }

  lemma SumsKept(s: State, total: int, m: Move)
    requires Inv(s, total) && Enabled(s, m)
    ensures var s' := Next(s, m);
      && s'.readers == Sum(ReaderIn, s'.ts) && s'.writers == Sum(WriterIn, s'.ts)
      && s'.shared + Sum(Pending, s'.ts) == total
  {
    MoverDeltas(s, total, m);
    SumNext(ReaderIn, s, m);
    SumNext(WriterIn, s, m);
    SumNext(Pending, s, m);
  }

  /** The shared counters move with the mover; being woken changes no share. */
  lemma MoverDeltas(s: State, total: int, m: Move)
    requires Inv(s, total) && Enabled(s, m)
    ensures var s' := Next(s, m);
      var t, t' := s.ts[m.i], s'.ts[m.i];
      && s'.readers - s.readers == ReaderIn(t') - ReaderIn(t)
      && s'.writers - s.writers == WriterIn(t') - WriterIn(t)
      && s'.shared - s.shared == Pending(t) - Pending(t')
    ensures m.Signal? && m.waked >= 0 ==>
      var u, u' := s.ts[m.waked], Next(s, m).ts[m.waked];
      ReaderIn(u') == ReaderIn(u) && WriterIn(u') == WriterIn(u) && Pending(u') == Pending(u)
  {
    hide Sum, WakeComing;
    assert ThreadOk(s, m.i);
  }

  lemma CountsKept(s: State, total: int, m: Move)
    requires Inv(s, total) && Enabled(s, m)
    ensures var s' := Next(s, m);
      s'.writers <= 1 && (s'.writers == 1 ==> s'.readers == 0)
  {
    SumNonNegative(ReaderIn, s.ts);
    SumNonNegative(WriterIn, s.ts);
    if m.Act? && s.ts[m.i].pc == Back {
      SumAtLeast(ReaderIn, s.ts, m.i);
      SumAtLeast(WriterIn, s.ts, m.i);
    }
  }

  /** Where the counters say someone is inside, someone is. */
  lemma SomeoneInside(s: State, total: int) returns (j: nat)
    requires Inv(s, total) && (s.readers != 0 || s.writers != 0)
    ensures j < |s.ts| && Inside(s.ts[j])
  {
    SumNonNegative(ReaderIn, s.ts);
    SumNonNegative(WriterIn, s.ts);
    if s.writers != 0 {
      j := SumSome(WriterIn, s.ts);
    } else {
      j := SumSome(ReaderIn, s.ts);
    }
  }

  /** A move of one thread does not put another to sleep. */
  lemma OthersStay(s: State, m: Move, k: nat)
    requires Enabled(s, m) && k < |s.ts| && k != m.i
    ensures Active(s.ts[k]) ==> Active(Next(s, m).ts[k])
    ensures Next(s, m).ts[k].pc == Asleep ==> s.ts[k].pc == Asleep
  {
  }

  /** Who is active after a move that leaves its mover passive. */
  lemma StillActive(s: State, total: int, m: Move, j: nat) returns (k: nat)
    requires Inv(s, total) && Enabled(s, m) && !Active(Next(s, m).ts[m.i])
    requires j < |s.ts| && Next(s, m).ts[j].pc == Asleep
    ensures k < |s.ts| && Active(Next(s, m).ts[k])
  {
    hide Sum, ThreadOk;
    if m.Act? && s.ts[m.i].pc == Test {
      k := SomeoneInside(s, total);
    } else {
      OthersStay(s, m, j);
      assert s.ts[j].pc == Asleep;
      if m.Signal? {
        k := m.waked;
      } else {
        WasPassive(s, m);
        k :| 0 <= k < |s.ts| && Active(s.ts[k]);
      }
    }
    if k != m.i {
      OthersStay(s, m, k);
    }
  }

  /** Only the test and the signal make an active thread passive. */
  lemma WasPassive(s: State, m: Move)
    requires Enabled(s, m) && !Active(Next(s, m).ts[m.i]) && !m.Signal? && s.ts[m.i].pc != Test
    ensures !Active(s.ts[m.i])
  {
  }

  lemma WakeKept(s: State, total: int, m: Move)
    requires Inv(s, total) && Enabled(s, m)
    ensures WakeComing(Next(s, m))
  {
    var s' := Next(s, m);
    if SomeAsleep(s') && !Active(s'.ts[m.i]) {
      var j :| 0 <= j < |s'.ts| && s'.ts[j].pc == Asleep;
      var k := StillActive(s, total, m, j);
    }
  }

  lemma InvKept(s: State, total: int, m: Move)
    requires Inv(s, total) && Enabled(s, m)
    ensures Inv(Next(s, m), total)
  {
    hide Sum, WakeComing, ThreadOk, Holds;
    forall j | 0 <= j < |s.ts| ensures ThreadOk(Next(s, m), j) {
      ThreadsKept(s, total, m, j);
    }
    MutexKept(s, total, m);
    SumsKept(s, total, m);
    CountsKept(s, total, m);
    WakeKept(s, total, m);
  }

  // ----- runs ------------------------------------------------------------------------------

  ghost predicate MoveOf(run: seq<State>, moves: seq<Move>, i: nat)
    requires i + 1 < |run| && i < |moves|
  {
    Enabled(run[i], moves[i]) && run[i + 1] == Next(run[i], moves[i])
  }

  ghost predicate IsRun(run: seq<State>, moves: seq<Move>) {
    && |run| == |moves| + 1 && Init(run[0])
    && forall i :: 0 <= i < |moves| ==> MoveOf(run, moves, i)
  }

  ghost function Total(s: State): int {
    s.shared + Sum(Pending, s.ts)
  }

  lemma InitInv(s: State)
    requires Init(s)
    ensures Inv(s, Total(s))
  {
    AllZero(ReaderIn, s.ts);
    AllZero(WriterIn, s.ts);
  }

  /** Every reachable state, with or without spurious wake-ups. */
  lemma {:induction false} RunInv(run: seq<State>, moves: seq<Move>, k: nat)
    requires IsRun(run, moves) && k < |run|
    ensures Inv(run[k], Total(run[0]))
    decreases k
  {
    if k == 0 {
      InitInv(run[0]);
    } else {
      RunInv(run, moves, k - 1);
      assert MoveOf(run, moves, k - 1);
      InvKept(run[k - 1], Total(run[0]), moves[k - 1]);
    }
  }

  /** A writer inside excludes every other thread. */
  lemma Exclusion(run: seq<State>, moves: seq<Move>, k: nat, i: nat, j: nat)
    requires IsRun(run, moves) && k < |run| && i < |run[k].ts| && j < |run[k].ts| && i != j
    requires Inside(run[k].ts[i]) && run[k].ts[i].kind == Writer
    ensures !Inside(run[k].ts[j])
  {
    RunInv(run, moves, k);
    WriterAlone(run[k], Total(run[0]), i, j);
  }

  /** No wake-up is lost although only one sleeper is signalled at a time. */
  lemma NoLostWakeup(run: seq<State>, moves: seq<Move>, k: nat, i: nat) returns (j: nat)
    requires IsRun(run, moves) && k < |run| && i < |run[k].ts| && run[k].ts[i].pc == Asleep
    ensures j < |run[k].ts| && Active(run[k].ts[j])
  {
    RunInv(run, moves, k);
    j :| 0 <= j < |run[k].ts| && Active(run[k].ts[j]);
  }

  ghost predicate AllDone(s: State) {
    forall i :: 0 <= i < |s.ts| ==> s.ts[i].pc == Done
  }

  /** Some thread can move, without any spurious wake-up, until all are done. */
  lemma NotStuck(s: State, total: int) returns (m: Move)
    requires Inv(s, total) && !AllDone(s)
    ensures Enabled(s, m) && !m.Spurious?
  {
    var i: nat;
    if s.mutex >= 0 {
      i := s.mutex;
    } else {
      i :| 0 <= i < |s.ts| && s.ts[i].pc != Done;
      if s.ts[i].pc == Asleep {
        i :| 0 <= i < |s.ts| && Active(s.ts[i]);
      }
    }
    assert ThreadOk(s, i);
    m := Act(i);
    if s.ts[i].pc == Left {
      var j := -1;
      if SomeAsleep(s) {
        j :| 0 <= j < |s.ts| && s.ts[j].pc == Asleep;
      }
      m := Signal(i, j);
    }
  }

  /** What a thread still has before it, in moves. */
  function Weight(t: Thread): int {
    20 * t.rounds + match t.pc
      case Start => 16
      case Woken => 15
      case Test => 14
      case Asleep => 13
      case Counted => 12
      case Body => 11
      case Loaded => 10
      case Leaving => 9
      case Back => 8
      case Left => 7
      case Signalled => 2
      case Done => 0
  }

  lemma WeightDrops(s: State, total: int, m: Move)
    requires Inv(s, total) && Enabled(s, m) && !m.Spurious?
    ensures Sum(Weight, Next(s, m).ts) < Sum(Weight, s.ts)
  {
    hide Sum, Inv;
    SumNext(Weight, s, m);
    match m
    case Act(i) => ActLighter(s, total, i);
    case Signal(i, j) =>
      assert Weight(Next(s, m).ts[i]) == Weight(s.ts[i]) - 5;
      assert j >= 0 ==> Weight(Next(s, m).ts[j]) == Weight(s.ts[j]) + 2;
  }

  lemma ActLighter(s: State, total: int, i: nat)
    requires Inv(s, total) && Enabled(s, Act(i))
    ensures Weight(Acted(s, i).ts[i]) < Weight(s.ts[i])
  {
    assert ThreadOk(s, i);
  }

  /** Without spurious wake-ups every run is finite: its length is bounded by its first state. */
  lemma {:induction false} RunBound(run: seq<State>, moves: seq<Move>, k: nat)
    requires IsRun(run, moves) && k < |run| && forall i :: 0 <= i < |moves| ==> !moves[i].Spurious?
    ensures k + Sum(Weight, run[k].ts) <= Sum(Weight, run[0].ts)
    ensures k <= Sum(Weight, run[0].ts)
    decreases k
  {
    if k > 0 {
      RunBound(run, moves, k - 1);
      RunInv(run, moves, k - 1);
      assert MoveOf(run, moves, k - 1);
      WeightDrops(run[k - 1], Total(run[0]), moves[k - 1]);
    }
    SumNonNegative(Weight, run[k].ts);
  }

  /** A run that cannot go on has all threads done, every increment made, and nobody counted. */
  lemma RunEnds(run: seq<State>, moves: seq<Move>)
    requires IsRun(run, moves)
    requires forall m :: Enabled(run[|moves|], m) ==> m.Spurious?
    ensures AllDone(run[|moves|])
    ensures run[|moves|].shared == Total(run[0])
    ensures run[|moves|].readers == 0 && run[|moves|].writers == 0 && run[|moves|].mutex == -1
  {
    var s := run[|moves|];
    RunInv(run, moves, |moves|);
    if !AllDone(s) {
      var m := NotStuck(s, Total(run[0]));
    }
    forall i | 0 <= i < |s.ts| ensures Pending(s.ts[i]) == 0 {
      assert ThreadOk(s, i);
    }
    AllZero(Pending, s.ts);
    AllZero(ReaderIn, s.ts);
    AllZero(WriterIn, s.ts);
  }

  // ----- the two programs ------------------------------------------------------------------

  /** sync_cnd: `n` threads, each adding 1 to the shared variable `k` times. */
  ghost predicate IsCounter(s: State, n: nat, k: nat) {
    && |s.ts| == n && s.shared == 0
    && forall i :: 0 <= i < n ==> s.ts[i].kind == Writer && s.ts[i].rounds == k
  }

  lemma {:induction false} SumPending(ts: seq<Thread>, k: nat)
    requires forall i :: 0 <= i < |ts| ==> ts[i].kind == Writer && ts[i].rounds == k && ts[i].pc == Start
    ensures Sum(Pending, ts) == |ts| * k
  {
    if |ts| > 0 {
      SumPending(ts[1..], k);
    }
  }

  /** Every complete schedule of the counter program leaves n * k in the shared variable. */
  lemma CounterResult(run: seq<State>, moves: seq<Move>, n: nat, k: nat)
    requires IsRun(run, moves) && IsCounter(run[0], n, k) && AllDone(run[|moves|])
    ensures run[|moves|].shared == n * k
  {
    SumPending(run[0].ts, k);
    forall m ensures Enabled(run[|moves|], m) ==> m.Spurious? {
    }
    RunEnds(run, moves);
  }

  /** read_cdv and write_cdv: every thread passes once. */
  ghost predicate IsReaderWriter(s: State) {
    forall i :: 0 <= i < |s.ts| ==> s.ts[i].rounds == 1
  }

  lemma {:induction false} SumWeightOnce(ts: seq<Thread>)
    requires forall i :: 0 <= i < |ts| ==> ts[i].rounds == 1 && ts[i].pc == Start
    ensures Sum(Weight, ts) == 36 * |ts|
  {
    if |ts| > 0 {
      SumWeightOnce(ts[1..]);
    }
  }

  /** The reader/writer program: at most 36 moves a thread, and when it stops all are done. */
  lemma ReaderWriterEnds(run: seq<State>, moves: seq<Move>)
    requires IsRun(run, moves) && IsReaderWriter(run[0])
    requires forall i :: 0 <= i < |moves| ==> !moves[i].Spurious?
    ensures |moves| <= 36 * |run[0].ts|
    ensures (forall m :: Enabled(run[|moves|], m) ==> m.Spurious?) ==> AllDone(run[|moves|])
  {
    SumWeightOnce(run[0].ts);
    RunBound(run, moves, |moves|);
    if forall m :: Enabled(run[|moves|], m) ==> m.Spurious? {
      RunEnds(run, moves);
    }
  }

  // ----- who is let in ---------------------------------------------------------------------

  ghost predicate WriterInside(s: State) {
    exists j :: 0 <= j < |s.ts| && Inside(s.ts[j]) && s.ts[j].kind == Writer
  }

  ghost predicate SomeInside(s: State) {
    exists j :: 0 <= j < |s.ts| && Inside(s.ts[j])
  }

  /** The counters are not zero exactly if someone of that kind is inside. */
  lemma CountersTell(s: State, total: int)
    requires Inv(s, total)
    ensures s.writers != 0 <==> WriterInside(s)
    ensures s.readers != 0 || s.writers != 0 <==> SomeInside(s)
  {
    SumNonNegative(ReaderIn, s.ts);
    SumNonNegative(WriterIn, s.ts);
    if s.writers != 0 {
      var j := SumSome(WriterIn, s.ts);
    } else if s.readers != 0 {
      var j := SumSome(ReaderIn, s.ts);
    }
    forall j | 0 <= j < |s.ts| && Inside(s.ts[j])
      ensures if s.ts[j].kind == Writer then s.writers != 0 else s.readers != 0
    {
      SumAtLeast(ReaderIn, s.ts, j);
      SumAtLeast(WriterIn, s.ts, j);
    }
  }

  /** Over every run a thread at its test gets in with its next move exactly if no writer is
      inside, for a reader, and nobody is, for a writer; otherwise it goes to sleep. */
  lemma LetIn(run: seq<State>, moves: seq<Move>, k: nat, i: nat)
    requires IsRun(run, moves) && k < |run| && i < |run[k].ts| && run[k].ts[i].pc == Test
    ensures Enabled(run[k], Act(i))
    ensures run[k].ts[i].kind == Reader ==> (Inside(Next(run[k], Act(i)).ts[i]) <==> !WriterInside(run[k]))
    ensures run[k].ts[i].kind == Writer ==> (Inside(Next(run[k], Act(i)).ts[i]) <==> !SomeInside(run[k]))
    ensures !Inside(Next(run[k], Act(i)).ts[i]) ==> Next(run[k], Act(i)).ts[i].pc == Asleep
  {
    RunInv(run, moves, k);
    CountersTell(run[k], Total(run[0]));
  }

  /** The readers of a state that have a round to make. */
  predicate WantsToRead(t: Thread) { t.kind == Reader && t.rounds > 0 }

  /** The first `n` threads are let in as far as they are readers, the others have not moved. */
  ghost predicate ReadersIn(s0: State, s: State, n: nat) {
    && n <= |s0.ts| == |s.ts| && s.mutex == -1 && s.writers == 0
    && (forall i :: 0 <= i < n && WantsToRead(s0.ts[i]) ==> s.ts[i].pc == Body)
    && (forall i :: 0 <= i < |s.ts| && (i >= n || !WantsToRead(s0.ts[i])) ==> s.ts[i] == s0.ts[i])
  }

  lemma Extended(run: seq<State>, moves: seq<Move>, m: Move) returns (run': seq<State>, moves': seq<Move>)
    requires IsRun(run, moves) && Enabled(run[|moves|], m)
    ensures IsRun(run', moves') && run'[0] == run[0] && run'[|moves'|] == Next(run[|moves|], m)
  {
    run', moves' := run + [Next(run[|moves|], m)], moves + [m];
    forall i | 0 <= i < |moves'| ensures MoveOf(run', moves', i) {
      if i < |moves| {
        assert MoveOf(run, moves, i);
      }
    }
  }

  /** Three moves take one more reader into its body, though others are there. */
  lemma OneReaderIn(run: seq<State>, moves: seq<Move>, n: nat) returns (run': seq<State>, moves': seq<Move>)
    requires IsRun(run, moves) && ReadersIn(run[0], run[|moves|], n) && n < |run[0].ts|
    ensures IsRun(run', moves') && run'[0] == run[0] && ReadersIn(run[0], run'[|moves'|], n + 1)
  {
    run', moves' := run, moves;
    if WantsToRead(run[0].ts[n]) {
      run', moves' := Extended(run', moves', Act(n));
      run', moves' := Extended(run', moves', Act(n));
      run', moves' := Extended(run', moves', Act(n));
    }
  }

  /** Readers do not exclude each other: from any start, with any number of them and of writers,
      there is a run after which all readers are in their bodies together. */
  lemma {:induction false} ReadersTogether(s: State, n: nat) returns (run: seq<State>, moves: seq<Move>)
    requires Init(s) && n <= |s.ts|
    ensures IsRun(run, moves) && run[0] == s && ReadersIn(s, run[|moves|], n)
  {
    if n == 0 {
      run, moves := [s], [];
    } else {
      run, moves := ReadersTogether(s, n - 1);
      run, moves := OneReaderIn(run, moves, n - 1);
    }
  }
}
