/** Chains of clusters over the decoded table: a value-level account of what the allocator,
    the freer and the walker do. `fat[e]` is what reading entry `e` returns. */
module FatChain {
  import opened EntryCodec

  predicate IsCluster(fat: seq<int>, c: int) {
    FAT_START_ENT <= c < |fat|
  }

  /** A value that leads on to another cluster number (which may still be out of range). */
  predicate IsLink(v: int) {
    v != FAT_ENT_FREE && v != FAT_ENT_EOF
  }

  // ----- counting free entries ------------------------------------------------------

  /** Free entries among FAT_START_ENT .. n - 1. */
  function FreeBelow(fat: seq<int>, n: nat): nat
    requires n <= |fat|
  {
    if n <= FAT_START_ENT then 0
    else FreeBelow(fat, n - 1) + (if fat[n - 1] == FAT_ENT_FREE then 1 else 0)
  }

  function CountFree(fat: seq<int>): nat {
    FreeBelow(fat, |fat|)
  }

  lemma {:induction false} FreeBelowUpdate(fat: seq<int>, c: nat, v: int, n: nat)
    requires IsCluster(fat, c) && n <= |fat|
    ensures FreeBelow(fat[c := v], n) == FreeBelow(fat, n)
      + (if c < n && v == FAT_ENT_FREE then 1 else 0) - (if c < n && fat[c] == FAT_ENT_FREE then 1 else 0)
  {
    if n > FAT_START_ENT {
      FreeBelowUpdate(fat, c, v, n - 1);
    }
  }

  /** Writing one entry moves the count by what that entry was and became. */
  lemma CountFreeUpdate(fat: seq<int>, c: nat, v: int)
    requires IsCluster(fat, c)
    ensures CountFree(fat[c := v]) == CountFree(fat)
      + (if v == FAT_ENT_FREE then 1 else 0) - (if fat[c] == FAT_ENT_FREE then 1 else 0)
  {
    FreeBelowUpdate(fat, c, v, |fat|);
  }

  lemma {:induction false} FreeBelowBound(fat: seq<int>, n: nat)
    requires n <= |fat|
    ensures FreeBelow(fat, n) <= if n <= FAT_START_ENT then 0 else n - FAT_START_ENT
    ensures FreeBelow(fat, n) == (if n <= FAT_START_ENT then 0 else n - FAT_START_ENT)
      ==> forall e :: FAT_START_ENT <= e < n ==> fat[e] == FAT_ENT_FREE
    decreases n
  {
    if n > FAT_START_ENT {
      FreeBelowBound(fat, n - 1);
    }
  }

  lemma {:induction false} NoneFree(fat: seq<int>, n: nat)
    requires n <= |fat| && forall e :: FAT_START_ENT <= e < n ==> fat[e] != FAT_ENT_FREE
    ensures FreeBelow(fat, n) == 0
    decreases n
  {
    if n > FAT_START_ENT {
      NoneFree(fat, n - 1);
    }
  }

  // ----- chains ---------------------------------------------------------------------

  ghost predicate Differ<T>(s: seq<T>, i: int, j: int) {
    0 <= i < |s| && 0 <= j < |s| ==> s[i] != s[j]
  }

  ghost predicate Distinct<T>(s: seq<T>) {
    forall i, j :: 0 <= i < j < |s| ==> Differ(s, i, j)
  }

  lemma DistinctSnoc<T>(s: seq<T>, x: T)
    requires Distinct(s) && x !in s
    ensures Distinct(s + [x])
  {
    forall i, j | 0 <= i < j < |s + [x]| ensures Differ(s + [x], i, j) {
      assert j < |s| ==> Differ(s, i, j);
    }
  }

  lemma DistinctSlice<T>(s: seq<T>, a: nat, b: nat)
    requires Distinct(s) && a <= b <= |s|
    ensures Distinct(s[a..b])
  {
    forall i, j | 0 <= i < j < b - a ensures Differ(s[a..b], i, j) {
      assert Differ(s, a + i, a + j);
    }
  }

  /** The first element does not come back. */
  lemma DistinctHead<T>(s: seq<T>, a: nat, x: T)
    requires Distinct(s) && a < |s| && x in s[a + 1..]
    ensures x != s[a]
  {
    var i :| 0 <= i < |s[a + 1..]| && s[a + 1..][i] == x;
    assert Differ(s, a, a + 1 + i);
  }

  ghost predicate Disjoint(a: seq<int>, b: seq<int>) {
    forall x :: x in a ==> x !in b
  }

  /** What entry `c[i]` of the chain `c` holds. */
  function Link(c: seq<int>, i: nat): int
    requires i < |c|
  {
    if i + 1 < |c| then c[i + 1] else FAT_ENT_EOF
  }

  /** `c` is the list of clusters of one file: in range, acyclic and ended by EOF. */
  ghost predicate IsChain(fat: seq<int>, c: seq<int>) {
    && |c| > 0
    && (forall i :: 0 <= i < |c| ==> IsCluster(fat, c[i]))
    && Distinct(c)
    && (forall i {:trigger Link(c, i)} :: 0 <= i < |c| ==> fat[c[i]] == Link(c, i))
    && |fat| <= FAT_ENT_EOF
  }

  /** No entry of a chain is free. */
  lemma ChainNotFree(fat: seq<int>, c: seq<int>, x: int)
    requires IsChain(fat, c) && x in c
    ensures IsCluster(fat, x) && fat[x] != FAT_ENT_FREE
  {
    var i :| 0 <= i < |c| && c[i] == x;
    assert fat[c[i]] == Link(c, i);
  }

  lemma ChainTail(fat: seq<int>, c: seq<int>, k: nat)
    requires IsChain(fat, c) && k < |c|
    ensures IsChain(fat, c[k..])
  {
    var t := c[k..];
    DistinctSlice(c, k, |c|);
    assert t == c[k..|c|];
    forall i | 0 <= i < |t| ensures fat[t[i]] == Link(t, i) && IsCluster(fat, t[i]) {
      assert t[i] == c[k + i] && fat[c[k + i]] == Link(c, k + i);
    }
  }

  /** A chain depends on its own entries only. */
  lemma ChainFrame(fat: seq<int>, fat': seq<int>, c: seq<int>)
    requires IsChain(fat, c) && |fat'| == |fat|
    requires forall x :: x in c ==> fat'[x] == fat[x]
    ensures IsChain(fat', c)
  {
  }

  /** Writing the first cluster of one chain into the last entry of another joins them. */
  lemma ChainJoin(fat: seq<int>, a: seq<int>, b: seq<int>)
    requires IsChain(fat, a) && IsChain(fat, b) && Disjoint(a, b)
    ensures IsChain(fat[a[|a| - 1] := b[0]], a + b)
  {
    var last := a[|a| - 1];
    var fat' := fat[last := b[0]];
    var c := a + b;
    forall i | 0 <= i < |c| ensures fat'[c[i]] == Link(c, i) {
      if i < |a| {
        assert fat[a[i]] == Link(a, i);
        assert i < |a| - 1 ==> Differ(a, i, |a| - 1);
      } else {
        assert c[i] == b[i - |a|] && b[i - |a|] in b && last in a;
        assert fat[b[i - |a|]] == Link(b, i - |a|);
      }
    }
    forall i, j | 0 <= i < j < |c| ensures Differ(c, i, j) {
      if i < |a| <= j {
        assert c[i] in a && c[j] in b;
      } else if j < |a| {
        assert Differ(a, i, j);
      } else {
        assert Differ(b, i - |a|, j - |a|);
      }
    }
  }

  lemma ChainClusters(fat: seq<int>, c: seq<int>)
    requires IsChain(fat, c)
    ensures |c| > 0 && forall i :: 0 <= i < |c| ==> IsCluster(fat, c[i])
  {
  }

  /** Writing EOF into entry `k - 1` cuts a chain in two. */
  lemma ChainCut(fat: seq<int>, c: seq<int>, k: nat)
    requires IsChain(fat, c) && 0 < k < |c|
    ensures IsChain(fat[c[k - 1] := FAT_ENT_EOF], c[..k])
    ensures IsChain(fat[c[k - 1] := FAT_ENT_EOF], c[k..])
    ensures Disjoint(c[..k], c[k..])
  {
    var fat' := fat[c[k - 1] := FAT_ENT_EOF];
    ChainTail(fat, c, k);
    forall x | x in c[k..] ensures fat'[x] == fat[x] && x !in c[..k] {
      var i :| 0 <= i < |c[k..]| && c[k..][i] == x;
      forall j | 0 <= j < k ensures c[j] != x {
        assert Differ(c, j, k + i);
      }
      assert Differ(c, k - 1, k + i);
      ChainNotFree(fat, c[k..], x);
    }
    ChainFrame(fat, fat', c[k..]);
    var h := c[..k];
    DistinctSlice(c, 0, k);
    assert h == c[0..k];
    forall i | 0 <= i < |h| ensures fat'[h[i]] == Link(h, i) {
      assert h[i] == c[i] && fat[c[i]] == Link(c, i);
      assert i < k - 1 ==> Differ(c, i, k - 1);
    }
  }

  // ----- freeing --------------------------------------------------------------------

  datatype FreeResult = FreeResult(fat: seq<int>, ok: bool, freed: nat)

  /** The freer on any table: free entries one by one along the links until EOF; stop with an
      error at a number out of range or an entry already free. */
  function FreeWalk(fat: seq<int>, c: int): (r: FreeResult)
    ensures |r.fat| == |fat|
    ensures CountFree(r.fat) == CountFree(fat) + r.freed
    decreases |fat| - CountFree(fat)
  {
    if !IsCluster(fat, c) || fat[c] == FAT_ENT_FREE then FreeResult(fat, false, 0)
    else
      var fat1 := fat[c := FAT_ENT_FREE];
      CountFreeUpdate(fat, c, FAT_ENT_FREE);
      FreeBelowBound(fat1, |fat1|);
      if fat[c] == FAT_ENT_EOF then FreeResult(fat1, true, 1)
      else
        var r := FreeWalk(fat1, fat[c]);
        FreeResult(r.fat, r.ok, r.freed + 1)
  }

  ghost function More(r: FreeResult, n: nat): FreeResult {
    FreeResult(r.fat, r.ok, r.freed + n)
  }

  /** One round of the freer. */
  lemma FreeWalkStep(fat: seq<int>, c: int)
    ensures !IsCluster(fat, c) || fat[c] == FAT_ENT_FREE ==> FreeWalk(fat, c) == FreeResult(fat, false, 0)
    ensures IsCluster(fat, c) && fat[c] != FAT_ENT_FREE ==>
      var f1 := fat[c := FAT_ENT_FREE];
      && CountFree(fat) < CountFree(f1) <= |f1|
      && FreeWalk(fat, c) == if fat[c] == FAT_ENT_EOF then FreeResult(f1, true, 1) else More(FreeWalk(f1, fat[c]), 1)
  {
    if IsCluster(fat, c) && fat[c] != FAT_ENT_FREE {
      CountFreeUpdate(fat, c, FAT_ENT_FREE);
      FreeBelowBound(fat[c := FAT_ENT_FREE], |fat|);
    }
  }

  function Cleared(fat: seq<int>, s: seq<int>): (r: seq<int>)
    ensures |r| == |fat|
    ensures forall e :: 0 <= e < |fat| ==> r[e] == if e in s then FAT_ENT_FREE else fat[e]
  {
    seq(|fat|, e requires 0 <= e < |fat| => if e in s then FAT_ENT_FREE else fat[e])
  }

  /** On a well-formed chain the freer frees exactly that chain. */
  lemma {:induction false} FreeWalkChain(fat: seq<int>, c: seq<int>)
    requires IsChain(fat, c)
    ensures FreeWalk(fat, c[0]) == FreeResult(Cleared(fat, c), true, |c|)
    decreases |c|
  {
    var fat1 := fat[c[0] := FAT_ENT_FREE];
    assert fat[c[0]] == Link(c, 0);
    if |c| == 1 {
      assert fat1 == Cleared(fat, c);
    } else {
      ChainTail(fat, c, 1);
      ChainNotFree(fat, c, c[0]);
      forall x | x in c[1..] ensures fat1[x] == fat[x] {
        DistinctHead(c, 0, x);
        ChainNotFree(fat, c[1..], x);
      }
      ChainFrame(fat, fat1, c[1..]);
      FreeWalkChain(fat1, c[1..]);
      assert Cleared(fat1, c[1..]) == Cleared(fat, c) by {
        assert c == [c[0]] + c[1..];
      }
    }
  }

  /** Entries in use, each once, that lead from `c` on one to the next. */
  ghost predicate LeadOn(fat: seq<int>, c: int, s: seq<int>) {
    && Distinct(s) && (|s| > 0 ==> s[0] == c)
    && (forall i :: 0 <= i < |s| ==> IsCluster(fat, s[i]) && fat[s[i]] != FAT_ENT_FREE)
    && (forall i {:trigger s[i]} :: 0 <= i < |s| - 1 ==> fat[s[i]] == s[i + 1] && fat[s[i]] != FAT_ENT_EOF)
  }

  /** On any table the freer frees just the entries it comes through, up to one that ends the chain, and
      stops with an error only where it comes to a number out of range, a free entry or one of its own. */
  lemma {:induction false} FreeWalkMeans(fat: seq<int>, c: int) returns (s: seq<int>)
    ensures LeadOn(fat, c, s)
    ensures var r := FreeWalk(fat, c); r.fat == Cleared(fat, s) && r.freed == |s|
    ensures var next := if |s| == 0 then c else fat[s[|s| - 1]];
      && (FreeWalk(fat, c).ok <==> |s| > 0 && next == FAT_ENT_EOF)
      && (!FreeWalk(fat, c).ok ==> !IsCluster(fat, next) || fat[next] == FAT_ENT_FREE || next in s)
    decreases |fat| - CountFree(fat)
  {
    hide CountFree, Cleared, FreeWalk;
    FreeWalkStep(fat, c);
    if !IsCluster(fat, c) || fat[c] == FAT_ENT_FREE {
      s := [];
      assert Cleared(fat, []) == fat;
    } else {
      var fat1 := fat[c := FAT_ENT_FREE];
      if fat[c] == FAT_ENT_EOF {
        s := [c];
        assert Cleared(fat, s) == fat1;
      } else {
        var t := FreeWalkMeans(fat1, fat[c]);
        s := [c] + t;
        LeadOnMore(fat, c, t);
        assert Cleared(fat1, t) == Cleared(fat, s);
      }
    }
  }

  lemma LeadOnMore(fat: seq<int>, c: int, t: seq<int>)
    requires IsCluster(fat, c) && fat[c] != FAT_ENT_FREE && fat[c] != FAT_ENT_EOF
    requires LeadOn(fat[c := FAT_ENT_FREE], fat[c], t)
    ensures LeadOn(fat, c, [c] + t) && c !in t
  {
    var s := [c] + t;
    forall i, j | 0 <= i < j < |s| ensures Differ(s, i, j) {
      assert i > 0 ==> Differ(t, i - 1, j - 1);
    }
    forall i | 0 <= i < |s| - 1 ensures fat[s[i]] == s[i + 1] && fat[s[i]] != FAT_ENT_EOF {
      assert i > 0 ==> s[i] == t[i - 1];
    }
  }

  /** `f` differs from `f0` at most by entries being free. */
  ghost predicate OnlyFrees(f0: seq<int>, f: seq<int>) {
    |f| == |f0| && forall e :: 0 <= e < |f0| ==> f[e] == f0[e] || f[e] == FAT_ENT_FREE
  }

  /** Whatever the table holds, the freer only turns entries free. */
  lemma {:induction false} FreeWalkOnlyFrees(fat: seq<int>, c: int)
    ensures OnlyFrees(fat, FreeWalk(fat, c).fat)
    decreases |fat| - CountFree(fat)
  {
    if IsCluster(fat, c) && fat[c] != FAT_ENT_FREE {
      var fat1 := fat[c := FAT_ENT_FREE];
      CountFreeUpdate(fat, c, FAT_ENT_FREE);
      FreeBelowBound(fat1, |fat1|);
      if fat[c] != FAT_ENT_EOF {
        FreeWalkOnlyFrees(fat1, fat[c]);
      }
    }
  }

  // ----- next fit -------------------------------------------------------------------

  /** Where a scan may start: one past the last allocated cluster, which may be one too far. */
  predicate ScanStart(fat: seq<int>, start: nat) {
    FAT_START_ENT <= start <= |fat| && FAT_START_ENT < |fat|
  }

  /** The entry reached after `k` steps of the cyclic scan that starts at `start`. */
  function Nth(max: nat, start: nat, k: nat): (e: nat)
    requires FAT_START_ENT <= start <= max && k < max - FAT_START_ENT
    ensures FAT_START_ENT <= e < max
  {
    if start + k < max then start + k else start + k - max + FAT_START_ENT
  }

  /** The free entries met in the first `k` steps of the scan, in order. */
  function FreeAlong(fat: seq<int>, start: nat, k: nat): (r: seq<int>)
    requires ScanStart(fat, start) && k <= |fat| - FAT_START_ENT
    ensures |r| <= k
    ensures forall x :: x in r ==> IsCluster(fat, x) && fat[x] == FAT_ENT_FREE
    decreases k
  {
    if k == 0 then []
    else
      var e := Nth(|fat|, start, k - 1);
      FreeAlong(fat, start, k - 1) + (if fat[e] == FAT_ENT_FREE then [e] else [])
  }

  /** `cl` lists the free entries of the first `k` steps. */
  ghost predicate MetFree(fat: seq<int>, start: nat, k: nat, cl: seq<int>)
    requires ScanStart(fat, start) && k <= |fat| - FAT_START_ENT
  {
    if k == 0 then |cl| == 0
    else
      var e := Nth(|fat|, start, k - 1);
      if fat[e] != FAT_ENT_FREE then MetFree(fat, start, k - 1, cl)
      else |cl| > 0 && cl[|cl| - 1] == e && MetFree(fat, start, k - 1, cl[..|cl| - 1])
  }

  lemma {:induction false} MetFreeIs(fat: seq<int>, start: nat, k: nat, cl: seq<int>)
    requires ScanStart(fat, start) && k <= |fat| - FAT_START_ENT
    ensures MetFree(fat, start, k, cl) <==> cl == FreeAlong(fat, start, k)
    decreases k
  {
    if k > 0 {
      if fat[Nth(|fat|, start, k - 1)] != FAT_ENT_FREE {
        MetFreeIs(fat, start, k - 1, cl);
      } else if |cl| > 0 {
        MetFreeIs(fat, start, k - 1, cl[..|cl| - 1]);
        assert cl == cl[..|cl| - 1] + [cl[|cl| - 1]];
      }
    }
  }

  /** The whole scan: every entry once. */
  function Scan(fat: seq<int>, start: nat): seq<int>
    requires ScanStart(fat, start)
  {
    FreeAlong(fat, start, |fat| - FAT_START_ENT)
  }

  /** One round of the scan meets every entry exactly once. */
  lemma NthCovers(max: nat, start: nat, e: nat) returns (k: nat)
    requires FAT_START_ENT <= start <= max && FAT_START_ENT <= e < max
    ensures k < max - FAT_START_ENT && Nth(max, start, k) == e
    ensures forall j :: 0 <= j < max - FAT_START_ENT && j != k ==> Nth(max, start, j) != e
  {
    k := if start <= e then e - start else e - start + max - FAT_START_ENT;
  }

  lemma {:induction false} FreeAlongMembers(fat: seq<int>, start: nat, k: nat)
    requires ScanStart(fat, start) && k <= |fat| - FAT_START_ENT
    ensures forall x :: x in FreeAlong(fat, start, k) ==>
      exists j :: 0 <= j < k && x == Nth(|fat|, start, j)
    ensures Distinct(FreeAlong(fat, start, k))
    ensures forall j | 0 <= j < k ::
      (fat[Nth(|fat|, start, j)] == FAT_ENT_FREE ==> Nth(|fat|, start, j) in FreeAlong(fat, start, k))
    decreases k
  {
    if k > 0 {
      FreeAlongMembers(fat, start, k - 1);
      var p := FreeAlong(fat, start, k - 1);
      assert forall i :: 0 <= i < |p| ==> p[i] in p;
      assert Nth(|fat|, start, k - 1) !in p;
      DistinctSnoc(p, Nth(|fat|, start, k - 1));
      assert p + [] == p;
    }
  }

  /** The whole scan lists every free entry exactly once. */
  lemma ScanIsAllFree(fat: seq<int>, start: nat)
    requires ScanStart(fat, start)
    ensures Distinct(Scan(fat, start))
    ensures forall x :: x in Scan(fat, start) <==> IsCluster(fat, x) && fat[x] == FAT_ENT_FREE
  {
    FreeAlongMembers(fat, start, |fat| - FAT_START_ENT);
    forall x | IsCluster(fat, x) && fat[x] == FAT_ENT_FREE ensures x in Scan(fat, start) {
      var k := NthCovers(|fat|, start, x);
    }
  }

  /** In a round that starts behind `last`, goes up to the end and on from the front, `x` comes before `y`. */
  predicate Sooner(last: int, x: int, y: int) {
    if x > last then y <= last || x < y else x < y <= last
  }

  /** `cl` are the free entries that come first in that round, in its order. */
  ghost predicate NextFit(fat: seq<int>, last: int, cl: seq<int>) {
    && (forall x :: x in cl ==> IsCluster(fat, x) && fat[x] == FAT_ENT_FREE)
    && (forall i, j :: 0 <= i < j < |cl| ==> Sooner(last, cl[i], cl[j]))
    && (forall x, y :: x in cl && IsCluster(fat, y) && fat[y] == FAT_ENT_FREE && y !in cl ==> Sooner(last, x, y))
  }

  lemma NthSooner(max: nat, start: nat, i: nat, j: nat)
    requires FAT_START_ENT <= start <= max && i < j < max - FAT_START_ENT
    ensures Sooner(start - 1, Nth(max, start, i), Nth(max, start, j))
  {
  }

  lemma {:induction false} FreeAlongOrder(fat: seq<int>, start: nat, k: nat)
    requires ScanStart(fat, start) && k <= |fat| - FAT_START_ENT
    ensures forall i, j :: 0 <= i < j < |FreeAlong(fat, start, k)| ==>
      Sooner(start - 1, FreeAlong(fat, start, k)[i], FreeAlong(fat, start, k)[j])
    decreases k
  {
    if k > 0 {
      FreeAlongOrder(fat, start, k - 1);
      FreeAlongMembers(fat, start, k - 1);
      var p := FreeAlong(fat, start, k - 1);
      forall i | 0 <= i < |p| ensures Sooner(start - 1, p[i], Nth(|fat|, start, k - 1)) {
        assert p[i] in p;
        var m :| 0 <= m < k - 1 && p[i] == Nth(|fat|, start, m);
        NthSooner(|fat|, start, m, k - 1);
      }
    }
  }

  /** The scan goes upward from `start`, and then from the first cluster: what it takes first is next fit. */
  lemma ScanOrder(fat: seq<int>, start: nat, n: nat)
    requires ScanStart(fat, start) && n <= |Scan(fat, start)|
    ensures NextFit(fat, start - 1, Scan(fat, start)[..n])
  {
    hide FreeAlong, Sooner;
    var all := Scan(fat, start);
    FreeAlongOrder(fat, start, |fat| - FAT_START_ENT);
    ScanIsAllFree(fat, start);
    forall x, y | x in all[..n] && IsCluster(fat, y) && fat[y] == FAT_ENT_FREE && y !in all[..n]
      ensures Sooner(start - 1, x, y)
    {
      var i :| 0 <= i < n && all[i] == x;
      var j :| 0 <= j < |all| && all[j] == y;
      assert forall m :: 0 <= m < n ==> all[m] in all[..n];
    }
    forall x | x in all[..n] ensures x in all {
      var i :| 0 <= i < n && all[i] == x;
    }
  }

  /** The free entry that comes last in the round. */
  ghost predicate LastInRound(fat: seq<int>, last: int, e: int) {
    && IsCluster(fat, e) && fat[e] == FAT_ENT_FREE
    && forall y :: IsCluster(fat, y) && fat[y] == FAT_ENT_FREE && y != e ==> Sooner(last, y, e)
  }

  lemma ScanLast(fat: seq<int>, start: nat)
    requires ScanStart(fat, start)
    ensures var all := Scan(fat, start);
      |all| > 0 ==> LastInRound(fat, start - 1, all[|all| - 1])
  {
    hide FreeAlong, Sooner;
    var all := Scan(fat, start);
    FreeAlongOrder(fat, start, |fat| - FAT_START_ENT);
    ScanIsAllFree(fat, start);
    if |all| > 0 {
      assert all[|all| - 1] in all;
      forall y | IsCluster(fat, y) && fat[y] == FAT_ENT_FREE && y != all[|all| - 1]
        ensures Sooner(start - 1, y, all[|all| - 1])
      {
        var i :| 0 <= i < |all| && all[i] == y;
      }
    }
  }

  lemma {:induction false} FreeAlongPrefix(fat: seq<int>, start: nat, j: nat, k: nat)
    requires ScanStart(fat, start) && j <= k <= |fat| - FAT_START_ENT
    ensures FreeAlong(fat, start, j) <= FreeAlong(fat, start, k)
    decreases k
  {
    if j < k {
      FreeAlongPrefix(fat, start, j, k - 1);
    }
  }

  /** `fat'` is `fat` with the clusters of `cl` linked in order and ended by EOF. */
  ghost predicate Linked(fat: seq<int>, fat': seq<int>, cl: seq<int>) {
    && |fat'| == |fat|
    && (forall i :: 0 <= i < |cl| ==> IsCluster(fat, cl[i]))
    && (forall e :: 0 <= e < |fat| && e !in cl ==> fat'[e] == fat[e])
    && (forall i {:trigger Link(cl, i)} :: 0 <= i < |cl| ==> fat'[cl[i]] == Link(cl, i))
  }

  lemma LinkedIsChain(fat: seq<int>, fat': seq<int>, cl: seq<int>)
    requires Linked(fat, fat', cl) && Distinct(cl) && |cl| > 0 && |fat| <= FAT_ENT_EOF
    ensures IsChain(fat', cl)
  {
  }

  /** The two writes that add cluster `e` to a chain under construction. */
  function LinkLast(f: seq<int>, cl: seq<int>, e: int): seq<int>
    requires IsCluster(f, e) && forall i :: 0 <= i < |cl| ==> IsCluster(f, cl[i])
  {
    var f1 := f[e := FAT_ENT_EOF];
    if |cl| > 0 then assert IsCluster(f, cl[|cl| - 1]); f1[cl[|cl| - 1] := e] else f1
  }

  /** One more cluster at the end: its own entry gets EOF, the previous one points to it. */
  lemma LinkedExtend(fat: seq<int>, fat': seq<int>, cl: seq<int>, e: int)
    requires Linked(fat, fat', cl) && Distinct(cl) && IsCluster(fat, e) && e !in cl
    ensures Linked(fat, LinkLast(fat', cl, e), cl + [e]) && Distinct(cl + [e])
  {
    var f2 := LinkLast(fat', cl, e);
    var c := cl + [e];
    DistinctSnoc(cl, e);
    forall i | 0 <= i < |c| ensures f2[c[i]] == Link(c, i) {
      if i < |cl| {
        assert cl[i] in cl;
        assert fat'[cl[i]] == Link(cl, i);
        assert i < |cl| - 1 ==> Differ(cl, i, |cl| - 1);
      }
    }
    forall x | 0 <= x < |fat| && x !in c ensures f2[x] == fat[x] {
      assert x !in cl && x != e;
      assert |cl| > 0 ==> cl[|cl| - 1] in cl;
    }
  }

  /** Linking free clusters and then freeing the chain gives the table back. */
  lemma RollbackRestores(fat: seq<int>, fat': seq<int>, cl: seq<int>)
    requires Linked(fat, fat', cl) && Distinct(cl) && |cl| > 0 && |fat| <= FAT_ENT_EOF
    requires forall x :: x in cl ==> fat[x] == FAT_ENT_FREE
    ensures FreeWalk(fat', cl[0]) == FreeResult(fat, true, |cl|)
  {
    LinkedIsChain(fat, fat', cl);
    FreeWalkChain(fat', cl);
    assert Cleared(fat', cl) == fat;
  }

  lemma {:induction false} LinkedCount(fat: seq<int>, fat': seq<int>, cl: seq<int>)
    requires Linked(fat, fat', cl) && Distinct(cl) && |fat| <= FAT_ENT_EOF
    requires forall x :: x in cl ==> fat[x] == FAT_ENT_FREE
    ensures CountFree(fat') == CountFree(fat) - |cl|
  {
    if |cl| > 0 {
      RollbackRestores(fat, fat', cl);
      var r := FreeWalk(fat', cl[0]);
    } else {
      assert fat' == fat;
    }
  }

  /** Once everything a whole scan met is linked, no entry is free. */
  lemma ScanExhausts(fat: seq<int>, fat': seq<int>, start: nat)
    requires ScanStart(fat, start) && Linked(fat, fat', Scan(fat, start)) && |fat| <= FAT_ENT_EOF
    ensures CountFree(fat') == 0
  {
    var cl := Scan(fat, start);
    ScanIsAllFree(fat, start);
    forall e | FAT_START_ENT <= e < |fat'| ensures fat'[e] != FAT_ENT_FREE {
      if e in cl {
        var i :| 0 <= i < |cl| && cl[i] == e;
        assert fat'[cl[i]] == Link(cl, i);
      }
    }
    NoneFree(fat', |fat'|);
  }

  lemma {:induction false} DistinctCard(s: seq<int>)
    requires Distinct(s)
    ensures |s| == |set x | x in s|
    decreases |s|
  {
    if |s| == 0 {
      assert (set x | x in s) == {};
    } else {
      var s', x := s[..|s| - 1], s[|s| - 1];
      assert s == s' + [x];
      forall i | 0 <= i < |s'| ensures s'[i] != x {
        assert Differ(s, i, |s| - 1);
      }
      DistinctSlice(s, 0, |s| - 1);
      DistinctCard(s');
      assert (set y | y in s) == (set y | y in s') + {x};
    }
  }

  lemma {:induction false} FreeBelowCard(fat: seq<int>, n: nat)
    requires n <= |fat|
    ensures FreeBelow(fat, n) == |set e | FAT_START_ENT <= e < n && fat[e] == FAT_ENT_FREE|
    decreases n
  {
    var now := set e | FAT_START_ENT <= e < n && fat[e] == FAT_ENT_FREE;
    if n <= FAT_START_ENT {
      assert now == {};
    } else {
      FreeBelowCard(fat, n - 1);
      var before := set e | FAT_START_ENT <= e < n - 1 && fat[e] == FAT_ENT_FREE;
      assert now == if fat[n - 1] == FAT_ENT_FREE then before + {n - 1} else before;
    }
  }

  /** So a whole round takes as many entries as are free. */
  lemma ScanCount(fat: seq<int>, start: nat)
    requires ScanStart(fat, start)
    ensures |Scan(fat, start)| == CountFree(fat)
  {
    ScanIsAllFree(fat, start);
    FreeBelowCard(fat, |fat|);
    DistinctCard(Scan(fat, start));
    assert (set x | x in Scan(fat, start)) == set e | FAT_START_ENT <= e < |fat| && fat[e] == FAT_ENT_FREE;
  }

  /** What the scan has when it stops: the first `nr` free entries, or all of them. */
  lemma ScanOutcome(fat: seq<int>, start: nat, k: nat, cl: seq<int>, nr: nat)
    requires ScanStart(fat, start) && k <= |fat| - FAT_START_ENT
    requires MetFree(fat, start, k, cl) && |cl| <= nr && (|cl| < nr ==> k == |fat| - FAT_START_ENT)
    ensures |cl| == nr <==> |Scan(fat, start)| >= nr
    ensures |cl| == nr ==> cl == Scan(fat, start)[..nr]
    ensures |cl| < nr ==> cl == Scan(fat, start)
  {
    MetFreeIs(fat, start, k, cl);
    FreeAlongPrefix(fat, start, k, |fat| - FAT_START_ENT);
  }

  // ----- what appending to and cutting a file do to the table -------------------------

  /** A file's clusters: none, or a well-formed chain that starts at `start`. */
  ghost predicate FileChain(fat: seq<int>, start: int, c: seq<int>) {
    if start == 0 then |c| == 0 else IsChain(fat, c) && c[0] == start
  }

  /** The table after the chain that starts with `first` is hung behind the file `c`. */
  function Appended(fat: seq<int>, c: seq<int>, first: int): seq<int>
    requires |c| > 0 ==> IsCluster(fat, c[|c| - 1])
  {
    if |c| > 0 then fat[c[|c| - 1] := first] else fat
  }

  /** The table after everything from cluster number `skip` of the file `c` is cut off and freed. */
  function CutFrom(fat: seq<int>, c: seq<int>, skip: nat): seq<int>
    requires 0 < skip < |c| ==> IsCluster(fat, c[skip - 1])
  {
    if skip >= |c| then fat
    else if skip == 0 then Cleared(fat, c)
    else Cleared(fat[c[skip - 1] := FAT_ENT_EOF], c[skip..])
  }

  /** Appending keeps the free entries. */
  lemma AppendedCount(fat: seq<int>, c: seq<int>, first: int)
    requires |c| > 0 ==> IsChain(fat, c)
    requires first != FAT_ENT_FREE
    ensures CountFree(Appended(fat, c, first)) == CountFree(fat)
    ensures |c| > 0 ==> IsCluster(fat, c[|c| - 1]) && fat[c[|c| - 1]] == FAT_ENT_EOF
  {
    if |c| > 0 {
      ChainNotFree(fat, c, c[|c| - 1]);
      assert fat[c[|c| - 1]] == Link(c, |c| - 1);
      CountFreeUpdate(fat, c[|c| - 1], first);
    }
  }

  /** Cutting: the head is a chain of the new table, the entries of the tail are free, all other
      entries are as before. */
  lemma CutFromChain(fat: seq<int>, c: seq<int>, skip: nat)
    requires IsChain(fat, c) && skip < |c|
    ensures skip > 0 ==> IsCluster(fat, c[skip - 1]) && IsChain(CutFrom(fat, c, skip), c[..skip])
    ensures skip > 0 ==> IsChain(fat[c[skip - 1] := FAT_ENT_EOF], c[skip..])
    ensures CountFree(CutFrom(fat, c, skip)) == CountFree(fat) + (|c| - skip)
    ensures forall e :: 0 <= e < |fat| && e !in c ==> CutFrom(fat, c, skip)[e] == fat[e]
    ensures forall e :: e in c[skip..] ==> IsCluster(fat, e) && CutFrom(fat, c, skip)[e] == FAT_ENT_FREE
  {
    forall x | x in c[skip..] ensures x in c {
    }
    if skip == 0 {
      FreeWalkChain(fat, c);
      var r := FreeWalk(fat, c[0]);
      assert c[0..] == c;
      forall e | e in c ensures IsCluster(fat, e) {
        ChainNotFree(fat, c, e);
      }
    } else {
      var last := c[skip - 1];
      var f1 := fat[last := FAT_ENT_EOF];
      ChainNotFree(fat, c, last);
      CountFreeUpdate(fat, last, FAT_ENT_EOF);
      ChainCut(fat, c, skip);
      FreeWalkChain(f1, c[skip..]);
      var r := FreeWalk(f1, c[skip..][0]);
      assert r.fat == CutFrom(fat, c, skip);
      ChainFrame(f1, r.fat, c[..skip]);
      forall e | e in c[skip..] ensures IsCluster(fat, e) {
        ChainNotFree(f1, c[skip..], e);
      }
    }
  }
}
