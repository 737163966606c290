/** The semaphore version of the reader/writer program (read_sem, write_sem): readers count
    themselves under one semaphore, the first takes the writers' semaphore for all of them and
    the last gives it back. A state is what the threads share and where each thread stands. */
module SemaphoreGate {
  import opened ThreadSums

  datatype Pc =
    | Start     // reader: about to wait for the readers' semaphore
    | In        // has it, about to count itself in
    | Counted   // has it, about to test whether it is the first
    | Passing   // has it, about to post it
    | Body      // reads; next it waits for the readers' semaphore again
    | Out       // has it, about to count itself out
    | Uncounted // has it, about to test whether it was the last
    | Ending    // has it, about to post it
    | WStart    // writer: about to wait for the writers' semaphore
    | WBody     // has it, writes, about to post it
    | Done

  datatype State = State(ts: seq<Pc>, r: int, w: int, count: int)

  /** Threads that hold the readers' semaphore. */
  function HasR(p: Pc): int {
    if p == In || p == Counted || p == Passing || p == Out || p == Uncounted || p == Ending then 1 else 0
  }

  /** Readers in the count. */
  function InCount(p: Pc): int {
    if p == Counted || p == Passing || p == Body || p == Out then 1 else 0
  }

  /** Readers that rely on the writers' semaphore being taken for them. */
  function Relies(p: Pc): int {
    if p == Passing || p == Body || p == Out then 1 else 0
  }

  /** Counted but not relying on the writers' semaphore yet. */
  function HalfIn(p: Pc): int { InCount(p) - Relies(p) }

  function IsUncounted(p: Pc): int { if p == Uncounted then 1 else 0 }

  function Writing(p: Pc): int { if p == WBody then 1 else 0 }

  predicate Enabled(s: State, i: nat) {
    && i < |s.ts| && s.ts[i] != Done
    && (s.ts[i] == Start || s.ts[i] == Body ==> s.r > 0)
    && (s.ts[i] == WStart || (s.ts[i] == Counted && s.count == 1) ==> s.w > 0)
  }

  function Next(s: State, i: nat): State
    requires Enabled(s, i)
  {
    match s.ts[i]
    case Start => s.(ts := s.ts[i := In], r := s.r - 1)
    case In => s.(ts := s.ts[i := Counted], count := s.count + 1)
    case Counted => s.(ts := s.ts[i := Passing], w := if s.count == 1 then s.w - 1 else s.w)
    case Passing => s.(ts := s.ts[i := Body], r := s.r + 1)
    case Body => s.(ts := s.ts[i := Out], r := s.r - 1)
    case Out => s.(ts := s.ts[i := Uncounted], count := s.count - 1)
    case Uncounted => s.(ts := s.ts[i := Ending], w := if s.count == 0 then s.w + 1 else s.w)
    case Ending => s.(ts := s.ts[i := Done], r := s.r + 1)
    case WStart => s.(ts := s.ts[i := WBody], w := s.w - 1)
    case WBody => s.(ts := s.ts[i := Done], w := s.w + 1)
    case Done => s
  }

  ghost predicate Init(s: State) {
    && s.r == 1 && s.w == 1 && s.count == 0
    && forall i :: 0 <= i < |s.ts| ==> s.ts[i] == Start || s.ts[i] == WStart
  }

  /** The readers as a group have the writers' semaphore. */
  ghost function GroupHasW(s: State): int {
    if Sum(Relies, s.ts) > 0 || (Sum(IsUncounted, s.ts) > 0 && s.count == 0) then 1 else 0
  }

  /** Both semaphores are conserved: free or held exactly once. */
  ghost predicate Inv(s: State) {
    && 0 <= s.r && s.r + Sum(HasR, s.ts) == 1
    && s.count == Sum(InCount, s.ts)
    && 0 <= s.w && s.w + Sum(Writing, s.ts) + GroupHasW(s) == 1
  }

  /** Only one thread holds the readers' semaphore. */
  lemma HolderAlone(s: State, i: nat, j: nat)
    requires Inv(s) && i < |s.ts| && j < |s.ts| && i != j && HasR(s.ts[i]) == 1
    ensures HasR(s.ts[j]) == 0
  {
    if i < j {
      SumTwo(HasR, s.ts, i, j);
    } else {
      SumTwo(HasR, s.ts, j, i);
    }
  }

  /** What the sums say while thread `i` holds the readers' semaphore. */
  lemma HolderSums(s: State, i: nat)
    requires Inv(s) && i < |s.ts| && HasR(s.ts[i]) == 1
    ensures Sum(IsUncounted, s.ts) == IsUncounted(s.ts[i])
    ensures Sum(InCount, s.ts) - Sum(Relies, s.ts) == InCount(s.ts[i]) - Relies(s.ts[i])
  {
    forall j | 0 <= j < |s.ts| && j != i ensures HasR(s.ts[j]) == 0 {
      HolderAlone(s, i, j);
    }
    OnlyOne(IsUncounted, s.ts, i);
    OnlyOne(HalfIn, s.ts, i);
    SumMinus(s.ts);
  }

  lemma {:induction false} SumMinus(ts: seq<Pc>)
    ensures Sum(HalfIn, ts) == Sum(InCount, ts) - Sum(Relies, ts)
    decreases |ts|
  {
    if |ts| > 0 {
      SumMinus(ts[1..]);
    }
  }

  /** With nobody holding the readers' semaphore, nobody is half counted. */
  lemma FreeSums(s: State)
    requires Inv(s) && s.r == 1
    ensures Sum(IsUncounted, s.ts) == 0 && Sum(InCount, s.ts) == Sum(Relies, s.ts)
  {
    forall j | 0 <= j < |s.ts| ensures HasR(s.ts[j]) == 0 {
      SumAtLeast(HasR, s.ts, j);
    }
    AllZero(IsUncounted, s.ts);
    AllZero(HalfIn, s.ts);
    SumMinus(s.ts);
  }

  lemma InvKept(s: State, i: nat)
    requires Inv(s) && Enabled(s, i)
    ensures Inv(Next(s, i))
  {
    hide Sum;
    var s' := Next(s, i);
    var p' := s'.ts[i];
    SumUpdate(HasR, s.ts, i, p');
    SumUpdate(InCount, s.ts, i, p');
    SumUpdate(Relies, s.ts, i, p');
    SumUpdate(IsUncounted, s.ts, i, p');
    SumUpdate(Writing, s.ts, i, p');
    SumNonNegative(HasR, s.ts);
    SumNonNegative(Relies, s.ts);
    SumNonNegative(Relies, s'.ts);
    SumNonNegative(Writing, s.ts);
    SumNonNegative(IsUncounted, s'.ts);
    SumNonNegative(IsUncounted, s.ts);
    if HasR(s.ts[i]) == 1 {
      HolderSums(s, i);
    } else if s.ts[i] == Body || s.ts[i] == Start {
      FreeSums(s);
    }
  }

  // ----- runs ------------------------------------------------------------------------------

  ghost predicate MoveOf(run: seq<State>, movers: seq<nat>, i: nat)
    requires i + 1 < |run| && i < |movers|
  {
    Enabled(run[i], movers[i]) && run[i + 1] == Next(run[i], movers[i])
  }

  ghost predicate IsRun(run: seq<State>, movers: seq<nat>) {
    && |run| == |movers| + 1 && Init(run[0])
    && forall i :: 0 <= i < |movers| ==> MoveOf(run, movers, i)
  }

  lemma {:induction false} RunInv(run: seq<State>, movers: seq<nat>, k: nat)
    requires IsRun(run, movers) && k < |run|
    ensures Inv(run[k])
  {
    if k == 0 {
      AllZero(HasR, run[0].ts);
      AllZero(InCount, run[0].ts);
      AllZero(Relies, run[0].ts);
      AllZero(IsUncounted, run[0].ts);
      AllZero(Writing, run[0].ts);
    } else {
      RunInv(run, movers, k - 1);
      assert MoveOf(run, movers, k - 1);
      InvKept(run[k - 1], movers[k - 1]);
    }
  }

  /** In every reachable state a writer writing excludes readers reading and other writers. */
  lemma Exclusion(run: seq<State>, movers: seq<nat>, k: nat, i: nat, j: nat)
    requires IsRun(run, movers) && k < |run| && i < |run[k].ts| && j < |run[k].ts| && i != j
    requires run[k].ts[i] == WBody
    ensures run[k].ts[j] != Body && run[k].ts[j] != WBody
  {
    var s := run[k];
    RunInv(run, movers, k);
    SumAtLeast(Writing, s.ts, i);
    SumAtLeast(Relies, s.ts, j);
    if i < j {
      SumTwo(Writing, s.ts, i, j);
    } else {
      SumTwo(Writing, s.ts, j, i);
    }
  }

  ghost predicate AllDone(s: State) {
    forall i :: 0 <= i < |s.ts| ==> s.ts[i] == Done
  }

  /** Whoever has the readers' semaphore, or else whoever has the writers', can go on. */
  lemma NoDeadlock(run: seq<State>, movers: seq<nat>, k: nat) returns (i: nat)
    requires IsRun(run, movers) && k < |run| && !AllDone(run[k])
    ensures Enabled(run[k], i)
  {
    var s := run[k];
    RunInv(run, movers, k);
    SumNonNegative(HasR, s.ts);
    SumNonNegative(Writing, s.ts);
    if s.r == 0 {
      i := SumSome(HasR, s.ts);
      if !Enabled(s, i) {
        HolderSums(s, i);
        i := SumSome(Writing, s.ts);
      }
    } else {
      FreeSums(s);
      i :| 0 <= i < |s.ts| && s.ts[i] != Done;
      if !Enabled(s, i) {
        if Sum(Writing, s.ts) > 0 {
          i := SumSome(Writing, s.ts);
        } else {
          i := SumSome(Relies, s.ts);
        }
      }
    }
  }

  function Weight(p: Pc): int {
    match p
    case Start => 8
    case In => 7
    case Counted => 6
    case Passing => 5
    case Body => 4
    case Out => 3
    case Uncounted => 2
    case Ending => 1
    case WStart => 2
    case WBody => 1
    case Done => 0
  }

  lemma {:induction false} WeightStart(ts: seq<Pc>)
    requires forall i :: 0 <= i < |ts| ==> ts[i] == Start || ts[i] == WStart
    ensures Sum(Weight, ts) <= 8 * |ts|
  {
    if |ts| > 0 {
      WeightStart(ts[1..]);
    }
  }

  /** Every run is finite: at most eight moves a thread. */
  lemma {:induction false} RunBound(run: seq<State>, movers: seq<nat>, k: nat)
    requires IsRun(run, movers) && k < |run|
    ensures |run[k].ts| == |run[0].ts|
    ensures k + Sum(Weight, run[k].ts) <= 8 * |run[0].ts|
    ensures k <= 8 * |run[0].ts|
    decreases k
  {
    if k == 0 {
      WeightStart(run[0].ts);
    } else {
      RunBound(run, movers, k - 1);
      assert MoveOf(run, movers, k - 1);
      var s, i := run[k - 1], movers[k - 1];
      SumUpdate(Weight, s.ts, i, run[k].ts[i]);
    }
    SumNonNegative(Weight, run[k].ts);
  }

  // ----- who is let in ---------------------------------------------------------------------

  ghost predicate SomeAt(s: State, at: set<Pc>) {
    exists j :: 0 <= j < |s.ts| && s.ts[j] in at
  }

  /** In every reachable state a writer may go on exactly if no thread writes and no reader has
      been let in without having given the writers' semaphore back. */
  lemma WriterLetIn(run: seq<State>, movers: seq<nat>, k: nat, i: nat)
    requires IsRun(run, movers) && k < |run| && i < |run[k].ts| && run[k].ts[i] == WStart
    ensures Enabled(run[k], i) <==> !SomeAt(run[k], {WBody, Passing, Body, Out, Uncounted})
    ensures Enabled(run[k], i) ==> Next(run[k], i).ts[i] == WBody
  {
    var s := run[k];
    RunInv(run, movers, k);
    SumsTell(s);
    if Sum(IsUncounted, s.ts) > 0 {
      var j := SumSome(IsUncounted, s.ts);
      HolderSums(s, j);
    }
  }

  /** The sums are positive exactly if someone stands there. */
  lemma SumsTell(s: State)
    ensures Sum(Writing, s.ts) > 0 <==> SomeAt(s, {WBody})
    ensures Sum(Relies, s.ts) > 0 <==> SomeAt(s, {Passing, Body, Out})
    ensures Sum(IsUncounted, s.ts) > 0 <==> SomeAt(s, {Uncounted})
    ensures Sum(Writing, s.ts) >= 0 && Sum(Relies, s.ts) >= 0 && Sum(IsUncounted, s.ts) >= 0
  {
    SumNonNegative(Writing, s.ts);
    SumNonNegative(Relies, s.ts);
    SumNonNegative(IsUncounted, s.ts);
    if Sum(Writing, s.ts) > 0 {
      var j := SumSome(Writing, s.ts);
    }
    if Sum(Relies, s.ts) > 0 {
      var j := SumSome(Relies, s.ts);
    }
    if Sum(IsUncounted, s.ts) > 0 {
      var j := SumSome(IsUncounted, s.ts);
    }
    forall j | 0 <= j < |s.ts|
      ensures Writing(s.ts[j]) <= Sum(Writing, s.ts) && Relies(s.ts[j]) <= Sum(Relies, s.ts)
      ensures IsUncounted(s.ts[j]) <= Sum(IsUncounted, s.ts)
    {
      SumAtLeast(Writing, s.ts, j);
      SumAtLeast(Relies, s.ts, j);
      SumAtLeast(IsUncounted, s.ts, j);
    }
  }

  /** A counted reader is let in exactly if no thread writes, whoever else reads. */
  lemma ReaderLetIn(run: seq<State>, movers: seq<nat>, k: nat, i: nat)
    requires IsRun(run, movers) && k < |run| && i < |run[k].ts| && run[k].ts[i] == Counted
    ensures Enabled(run[k], i) <==> !SomeAt(run[k], {WBody})
    ensures Enabled(run[k], i) ==> Next(run[k], i).ts[i] == Passing
  {
    var s := run[k];
    RunInv(run, movers, k);
    SumsTell(s);
    HolderSums(s, i);
  }

  /** The first `n` threads are in their bodies as far as they are readers, the others have not
      moved. */
  ghost predicate ReadersIn(s0: State, s: State, n: nat) {
    && n <= |s0.ts| == |s.ts| && s.r == 1 && 0 <= s.count && s.w == (if s.count == 0 then 1 else 0)
    && (forall i :: 0 <= i < n && s0.ts[i] == Start ==> s.ts[i] == Body)
    && (forall i :: 0 <= i < |s.ts| && (i >= n || s0.ts[i] != Start) ==> s.ts[i] == s0.ts[i])
  }

  lemma Extended(run: seq<State>, movers: seq<nat>, i: nat) returns (run': seq<State>, movers': seq<nat>)
    requires IsRun(run, movers) && Enabled(run[|movers|], i)
    ensures IsRun(run', movers') && run'[0] == run[0] && run'[|movers'|] == Next(run[|movers|], i)
  {
    run', movers' := run + [Next(run[|movers|], i)], movers + [i];
    forall j | 0 <= j < |movers'| ensures MoveOf(run', movers', j) {
      if j < |movers| {
        assert MoveOf(run, movers, j);
      }
    }
  }

  /** Four moves take one more reader into its body, though others are there. */
  lemma OneReaderIn(run: seq<State>, movers: seq<nat>, n: nat) returns (run': seq<State>, movers': seq<nat>)
    requires IsRun(run, movers) && ReadersIn(run[0], run[|movers|], n) && n < |run[0].ts|
    ensures IsRun(run', movers') && run'[0] == run[0] && ReadersIn(run[0], run'[|movers'|], n + 1)
  {
    run', movers' := run, movers;
    if run[0].ts[n] == Start {
      run', movers' := Extended(run', movers', n);
      run', movers' := Extended(run', movers', n);
      run', movers' := Extended(run', movers', n);
      run', movers' := Extended(run', movers', n);
    }
  }

  /** Readers do not exclude each other: from any start, with any number of them and of writers,
      there is a run after which all readers are in their bodies together. */
  lemma {:induction false} ReadersTogether(s: State, n: nat) returns (run: seq<State>, movers: seq<nat>)
    requires Init(s) && n <= |s.ts|
    ensures IsRun(run, movers) && run[0] == s && ReadersIn(s, run[|movers|], n)
  {
    if n == 0 {
      run, movers := [s], [];
    } else {
      run, movers := ReadersTogether(s, n - 1);
      run, movers := OneReaderIn(run, movers, n - 1);
    }
  }
}
