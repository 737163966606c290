/** Sums of a number per thread, the bookkeeping of the step machines. */
module ThreadSums {

  function Sum<T>(f: T -> int, ts: seq<T>): int
    decreases |ts|
  {
    if |ts| == 0 then 0 else f(ts[0]) + Sum(f, ts[1..])
  }

  lemma {:induction false} SumUpdate<T>(f: T -> int, ts: seq<T>, i: nat, t: T)
    requires i < |ts|
    ensures Sum(f, ts[i := t]) == Sum(f, ts) - f(ts[i]) + f(t)
    decreases |ts|
  {
    if i == 0 {
      assert ts[0 := t][1..] == ts[1..];
    } else {
      assert ts[i := t][1..] == ts[1..][i - 1 := t];
      SumUpdate(f, ts[1..], i - 1, t);
    }
  }

  lemma {:induction false} SumSome<T>(f: T -> int, ts: seq<T>) returns (i: nat)
    requires Sum(f, ts) > 0
    ensures i < |ts| && f(ts[i]) > 0
    decreases |ts|
  {
    if f(ts[0]) > 0 {
      i := 0;
    } else {
      i := SumSome(f, ts[1..]);
      i := i + 1;
    }
  }

  lemma {:induction false} SumAtLeast<T(!new)>(f: T -> int, ts: seq<T>, i: nat)
    requires i < |ts| && forall t :: f(t) >= 0
    ensures Sum(f, ts) >= f(ts[i])
    decreases |ts|
  {
    SumNonNegative(f, ts[1..]);
    if i > 0 {
      SumAtLeast(f, ts[1..], i - 1);
    }
  }

  lemma {:induction false} SumNonNegative<T(!new)>(f: T -> int, ts: seq<T>)
    requires forall t :: f(t) >= 0
    ensures Sum(f, ts) >= 0
    decreases |ts|
  {
    if |ts| > 0 {
      SumNonNegative(f, ts[1..]);
    }
  }

  /** Two threads that both count make at least two. */
  lemma {:induction false} SumTwo<T(!new)>(f: T -> int, ts: seq<T>, i: nat, j: nat)
    requires i < j < |ts| && forall t :: f(t) >= 0
    ensures Sum(f, ts) >= f(ts[i]) + f(ts[j])
    decreases |ts|
  {
    if i == 0 {
      SumAtLeast(f, ts[1..], j - 1);
    } else {
      SumTwo(f, ts[1..], i - 1, j - 1);
    }
  }

  lemma {:induction false} AllZero<T>(f: T -> int, ts: seq<T>)
    requires forall i :: 0 <= i < |ts| ==> f(ts[i]) == 0
    ensures Sum(f, ts) == 0
    decreases |ts|
  {
    if |ts| > 0 {
      AllZero(f, ts[1..]);
    }
  }

  lemma {:induction false} OnlyOne<T>(f: T -> int, ts: seq<T>, i: nat)
    requires i < |ts| && forall j :: 0 <= j < |ts| && j != i ==> f(ts[j]) == 0
    ensures Sum(f, ts) == f(ts[i])
    decreases |ts|
  {
    if i == 0 {
      AllZero(f, ts[1..]);
    } else {
      OnlyOne(f, ts[1..], i - 1);
    }
  }
}
