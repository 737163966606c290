/** Walking a file's clusters: the plain walk from the first cluster, and the runs of
    consecutive clusters that an inode remembers to walk less. Nothing here assumes that the
    table is well formed. */
module ChainWalk {
  import opened EntryCodec
  import opened FatChain

  /** Where a walk ends: cluster number `f` of the file is `d`; or the file ends at that cluster;
      or the chain is broken or too long there. */
  datatype Reach = Found(f: nat, d: int) | AtEof(f: nat, d: int) | Broken(f: nat, d: int)

  /** The walk without memory, from cluster number `f` of the file, which is `d`. */
  function Walk(fat: seq<int>, limit: nat, f: nat, d: int, target: nat): (r: Reach)
    ensures f <= target && f <= limit + 1 ==> f <= r.f <= limit + 1
    decreases if f < target then target - f else 0
  {
    if f >= target then Found(f, d)
    else if f > limit then Broken(f, d)
    else if !IsCluster(fat, d) || fat[d] == FAT_ENT_FREE then Broken(f, d)
    else if fat[d] == FAT_ENT_EOF then AtEof(f, d)
    else Walk(fat, limit, f + 1, fat[d], target)
  }

  lemma NoWalk(fat: seq<int>, limit: nat, f: nat, d: int, target: nat)
    requires target <= f
    ensures Walk(fat, limit, f, d, target) == Found(f, d)
  {
  }

  datatype Spot = At(d: int) | Past

  /** Cluster number `k` of the file that starts at `start`. */
  ghost function Follow(fat: seq<int>, start: int, k: nat): Spot
    decreases k
  {
    if k == 0 then At(start)
    else
      match Follow(fat, start, k - 1)
      case Past => Past
      case At(d) => if IsCluster(fat, d) && IsLink(fat[d]) then At(fat[d]) else Past
  }

  /** A walk may start at any position already known. */
  lemma {:induction false} WalkSkip(fat: seq<int>, limit: nat, start: int, f: nat, d: int, target: nat)
    requires Follow(fat, start, f) == At(d) && f <= target && f <= limit + 1
    ensures Walk(fat, limit, 0, start, target) == Walk(fat, limit, f, d, target)
  {
    if f > 0 {
      WalkSkip(fat, limit, start, f - 1, Follow(fat, start, f - 1).d, target);
    }
  }

  /** One round of the walk. */
  lemma WalkNext(fat: seq<int>, limit: nat, start: int, f: nat, d: int, target: nat)
    requires Follow(fat, start, f) == At(d) && f < target && f <= limit
    ensures Walk(fat, limit, f, d, target) ==
      if !IsCluster(fat, d) || fat[d] == FAT_ENT_FREE then Broken(f, d)
      else if fat[d] == FAT_ENT_EOF then AtEof(f, d)
      else Walk(fat, limit, f + 1, fat[d], target)
    ensures IsCluster(fat, d) && IsLink(fat[d]) ==> Follow(fat, start, f + 1) == At(fat[d])
  {
  }

  /** What the walk answers on any table: the cluster with that number; or the last one before it, if it
      ends the file; or the first before it that leads nowhere or has a number past the limit. */
  ghost predicate WalkIs(fat: seq<int>, limit: nat, start: int, target: nat, r: Reach) {
    && r.f >= 0 && Follow(fat, start, r.f) == At(r.d)
    && match r
       case Found(f, _) => f == target <= limit + 1
       case AtEof(f, d) => f < target && f <= limit && IsCluster(fat, d) && fat[d] == FAT_ENT_EOF
       case Broken(f, d) =>
         && f < target && f <= limit + 1 && (f == limit + 1 || !IsCluster(fat, d) || fat[d] == FAT_ENT_FREE)
  }

  lemma WalkMeans(fat: seq<int>, limit: nat, start: int, target: nat)
    ensures WalkIs(fat, limit, start, target, Walk(fat, limit, 0, start, target))
  {
    WalkFrom(fat, limit, start, 0, start, target);
  }

  lemma {:induction false} WalkFrom(fat: seq<int>, limit: nat, start: int, f: nat, d: int, target: nat)
    requires Follow(fat, start, f) == At(d) && f <= target && f <= limit + 1
    ensures WalkIs(fat, limit, start, target, Walk(fat, limit, f, d, target))
    decreases target - f
  {
    if f < target && f <= limit && IsCluster(fat, d) && fat[d] != FAT_ENT_FREE && fat[d] != FAT_ENT_EOF {
      WalkFrom(fat, limit, start, f + 1, fat[d], target);
    }
  }

  /** On a well-formed chain the walk finds the clusters of the chain in order and its end. */
  lemma {:induction false} FollowChain(fat: seq<int>, c: seq<int>, k: nat)
    requires IsChain(fat, c)
    ensures Follow(fat, c[0], k) == if k < |c| then At(c[k]) else Past
    decreases k
  {
    if k > 0 {
      FollowChain(fat, c, k - 1);
      if k - 1 < |c| {
        assert fat[c[k - 1]] == Link(c, k - 1);
        if k < |c| {
          assert IsCluster(fat, c[k]);
        }
      }
    }
  }

  lemma {:induction false} WalkChain(fat: seq<int>, c: seq<int>, limit: nat, target: nat)
    requires IsChain(fat, c) && |c| <= limit + 1
    ensures Walk(fat, limit, 0, c[0], target)
      == if target < |c| then Found(target, c[target]) else AtEof(|c| - 1, c[|c| - 1])
  {
    var k := if target < |c| then target else |c| - 1;
    FollowChain(fat, c, k);
    WalkSkip(fat, limit, c[0], k, c[k], target);
    assert fat[c[k]] == Link(c, k);
  }

  // ----- remembered runs ------------------------------------------------------------

  /** Clusters `fcluster` .. `fcluster + nrContig` of the file are consecutive on disk. */
  datatype Run = Run(fcluster: int, dcluster: int, nrContig: int)

  /** A run tells the truth about the file, and starts where the file's clusters jump. */
  ghost predicate RunOk(fat: seq<int>, start: int, r: Run) {
    match r
    case Run(fclus, dclus, n) =>
      && 1 <= fclus && 0 <= n
      && (forall k: nat {:trigger Follow(fat, start, k)} :: fclus <= k <= fclus + n ==>
            Follow(fat, start, k) == At(dclus + (k - fclus)))
      && (fclus == 1 || Follow(fat, start, fclus - 1) != At(dclus - 1))
  }

  /** Two true runs with different starts have no position in common. */
  lemma RunsApart(fat: seq<int>, start: int, r: Run, r': Run)
    requires RunOk(fat, start, r) && RunOk(fat, start, r') && r.fcluster < r'.fcluster
    ensures r.fcluster + r.nrContig < r'.fcluster
  {
    assert Follow(fat, start, r'.fcluster) == At(r'.dcluster);
    assert Follow(fat, start, r'.fcluster - 1) != At(r'.dcluster - 1);
  }

  /** Runs with the same start agree on the disk. */
  lemma RunsAgree(fat: seq<int>, start: int, r: Run, r': Run)
    requires RunOk(fat, start, r) && RunOk(fat, start, r') && r.fcluster == r'.fcluster
    ensures r.dcluster == r'.dcluster
  {
    assert Follow(fat, start, r.fcluster) == At(r.dcluster);
  }

  lemma RunExtend(fat: seq<int>, start: int, r: Run)
    requires RunOk(fat, start, r)
    requires Follow(fat, start, r.fcluster + r.nrContig + 1) == At(r.dcluster + r.nrContig + 1)
    ensures RunOk(fat, start, r.(nrContig := r.nrContig + 1))
  {
  }

  ghost predicate StartsDiffer(lru: seq<Run>, i: int, j: int) {
    0 <= i < |lru| && 0 <= j < |lru| ==> lru[i].fcluster != lru[j].fcluster
  }

  ghost predicate UniqueStarts(lru: seq<Run>) {
    forall i, j :: 0 <= i < j < |lru| ==> StartsDiffer(lru, i, j)
  }

  /** The cache of one file: true runs, different starts, none beyond the walk's limit. */
  ghost predicate CacheOk(fat: seq<int>, start: int, limit: nat, lru: seq<Run>) {
    && UniqueStarts(lru)
    && (forall r :: r in lru ==> CachedRun(fat, start, limit, r))
  }

  ghost predicate CachedRun(fat: seq<int>, start: int, limit: nat, r: Run) {
    match r
    case Run(fclus, _, n) => RunOk(fat, start, r) && fclus + n <= limit + 1
  }

  /** The last position of a run that is not beyond `fclus`. */
  function ReachTo(r: Run, fclus: int): int {
    if r.fcluster + r.nrContig < fclus then r.fcluster + r.nrContig else fclus
  }

  /** `pos` is at or after every cached position not beyond `fclus`. */
  ghost predicate Furthest(lru: seq<Run>, fclus: int, pos: int) {
    forall r :: r in lru && r.fcluster <= fclus ==> ReachTo(r, fclus) <= pos
  }

  /** A run that starts last among those not beyond `fclus`, or that covers it, reaches furthest. */
  lemma FurthestHit(fat: seq<int>, start: int, limit: nat, lru: seq<Run>, hit: nat, fclus: nat)
    requires CacheOk(fat, start, limit, lru) && hit < |lru| && lru[hit].fcluster <= fclus
    requires lru[hit].fcluster + lru[hit].nrContig >= fclus
      || forall r :: r in lru && r.fcluster <= fclus ==> r.fcluster <= lru[hit].fcluster
    ensures Furthest(lru, fclus, ReachTo(lru[hit], fclus))
  {
    var h := lru[hit];
    assert CachedRun(fat, start, limit, h);
    forall r | r in lru && r.fcluster <= fclus ensures ReachTo(r, fclus) <= ReachTo(h, fclus) {
      assert CachedRun(fat, start, limit, r);
      if r.fcluster < h.fcluster {
        RunsApart(fat, start, r, h);
      } else if r.fcluster == h.fcluster {
        var i :| 0 <= i < |lru| && lru[i] == r;
        assert StartsDiffer(lru, i, hit) || StartsDiffer(lru, hit, i) || i == hit;
      }
    }
  }

  /** The same start, and at least as long. */
  predicate Covers(r: Run, run: Run) {
    r.fcluster == run.fcluster && r.dcluster == run.dcluster && r.nrContig >= run.nrContig
  }

  /** `list_move` to the head of the list. */
  function ToFront(lru: seq<Run>, i: nat): seq<Run>
    requires i < |lru|
  {
    [lru[i]] + lru[..i] + lru[i + 1..]
  }

  /** A run with the same start, if the new one is longer. */
  function Longer(r: Run, run: Run): Run { if run.nrContig > r.nrContig then run else r }

  ghost predicate StartsAt(lru: seq<Run>, i: int, f: int) { 0 <= i < |lru| && lru[i].fcluster == f }

  /** The list after `run` was remembered: in front is the run with that start, as long as it is
      known; or the new one, for which a full list gives up its last, the least recently used. */
  ghost predicate Pushed(lru: seq<Run>, run: Run, max: nat, memory: bool, lru': seq<Run>) {
    if exists i :: StartsAt(lru, i, run.fcluster)
    then exists i :: StartsAt(lru, i, run.fcluster) && lru' == ToFront(lru[i := Longer(lru[i], run)], i)
    else if |lru| < max then lru' == if memory then [run] + lru else lru
    else 0 < max <= |lru| && lru' == [run] + lru[..max - 1]
  }

  /** Element `i` of the list is in front, as the longer of itself and `run`, the others as they were. */
  ghost predicate MovedUp(lru: seq<Run>, i: int, run: Run, lru': seq<Run>) {
    && 0 <= i < |lru| && |lru'| > 0 && lru'[1..] == lru[..i] + lru[i + 1..]
    && Covers(lru'[0], lru[i]) && Covers(lru'[0], run) && (lru'[0] == lru[i] || lru'[0] == run)
  }

  /** The list of at most eight runs after `run` was remembered. */
  ghost predicate Remembers(lru: seq<Run>, run: Run, memory: bool, lru': seq<Run>) {
    if forall r :: r in lru ==> r.fcluster != run.fcluster
    then lru' == if |lru| == 8 then [run] + lru[..7] else if memory then [run] + lru else lru
    else exists i :: MovedUp(lru, i, run, lru')
  }

  lemma PushedMeans(lru: seq<Run>, run: Run, memory: bool, lru': seq<Run>)
    requires |lru| <= 8 && Pushed(lru, run, 8, memory, lru')
    requires forall r :: r in lru && r.fcluster == run.fcluster ==> r.dcluster == run.dcluster
    ensures Remembers(lru, run, memory, lru')
  {
    if exists i :: StartsAt(lru, i, run.fcluster) {
      var i :| StartsAt(lru, i, run.fcluster) && lru' == ToFront(lru[i := Longer(lru[i], run)], i);
      assert lru[i] in lru;
      FrontIs(lru, i, Longer(lru[i], run), lru');
      assert MovedUp(lru, i, run, lru');
    } else {
      forall r | r in lru ensures r.fcluster != run.fcluster {
        var i :| 0 <= i < |lru| && lru[i] == r;
        assert !StartsAt(lru, i, run.fcluster);
      }
    }
  }

  lemma FrontIs(lru: seq<Run>, i: nat, r: Run, lru': seq<Run>)
    requires i < |lru| && lru' == ToFront(lru[i := r], i)
    ensures |lru'| > 0 && lru'[0] == r && lru'[1..] == lru[..i] + lru[i + 1..]
  {
    assert lru[i := r][..i] == lru[..i] && lru[i := r][i + 1..] == lru[i + 1..];
  }

  lemma ToFrontSame(lru: seq<Run>, i: nat)
    requires i < |lru|
    ensures multiset(ToFront(lru, i)) == multiset(lru)
    ensures forall r :: r in ToFront(lru, i) <==> r in lru
  {
    var t := ToFront(lru, i);
    assert lru == lru[..i] + [lru[i]] + lru[i + 1..];
    assert forall r :: r in t <==> r in multiset(t);
    assert forall r :: r in lru <==> r in multiset(lru);
  }

  lemma ToFrontUnique(lru: seq<Run>, i: nat)
    requires i < |lru| && UniqueStarts(lru)
    ensures UniqueStarts(ToFront(lru, i))
  {
    var t := ToFront(lru, i);
    forall a, b | 0 <= a < b < |t| ensures StartsDiffer(t, a, b) {
      var a' := if a == 0 then i else if a <= i then a - 1 else a;
      var b' := if b <= i then b - 1 else b;
      assert t[a] == lru[a'] && t[b] == lru[b'];
      assert StartsDiffer(lru, a', b') || StartsDiffer(lru, b', a');
    }
  }

  /** The list is the same but for its order, and its starts still differ. */
  lemma ToFrontKeeps(lru: seq<Run>, i: nat)
    requires i < |lru|
    ensures multiset(ToFront(lru, i)) == multiset(lru)
    ensures forall r :: r in ToFront(lru, i) <==> r in lru
    ensures UniqueStarts(lru) ==> UniqueStarts(ToFront(lru, i))
  {
    hide ToFront, UniqueStarts;
    ToFrontSame(lru, i);
    if UniqueStarts(lru) {
      ToFrontUnique(lru, i);
    }
  }

  lemma PushKeeps(lru: seq<Run>, m: nat, r: Run)
    requires UniqueStarts(lru) && m <= |lru| && forall x :: x in lru ==> x.fcluster != r.fcluster
    ensures UniqueStarts([r] + lru[..m])
  {
    var t := [r] + lru[..m];
    forall a, b | 0 <= a < b < |t| ensures StartsDiffer(t, a, b) {
      assert t[b] == lru[b - 1];
      if a > 0 {
        assert t[a] == lru[a - 1];
        assert StartsDiffer(lru, a - 1, b - 1);
      }
    }
  }

  lemma ReplaceKeeps(lru: seq<Run>, i: nat, r: Run)
    requires UniqueStarts(lru) && i < |lru| && r.fcluster == lru[i].fcluster
    ensures UniqueStarts(lru[i := r])
  {
    var t := lru[i := r];
    forall a, b | 0 <= a < b < |t| ensures StartsDiffer(t, a, b) {
      assert StartsDiffer(lru, a, b);
    }
  }

  // ----- what a change of the table means for remembered runs ------------------------

  /** Changing only entries that lead nowhere keeps every position of every file. */
  lemma {:induction false} FollowKept(fat: seq<int>, fat': seq<int>, start: int, k: nat)
    requires |fat'| == |fat|
    requires forall e :: IsCluster(fat, e) && IsLink(fat[e]) ==> fat'[e] == fat[e]
    ensures Follow(fat, start, k) != Past ==> Follow(fat', start, k) == Follow(fat, start, k)
    decreases k
  {
    if k > 0 {
      FollowKept(fat, fat', start, k - 1);
    }
  }

  /** Appending to a chain and allocating keep every cache of every file valid. */
  lemma CacheKept(fat: seq<int>, fat': seq<int>, start: int, limit: nat, lru: seq<Run>)
    requires |fat'| == |fat| && CacheOk(fat, start, limit, lru)
    requires forall e :: IsCluster(fat, e) && IsLink(fat[e]) ==> fat'[e] == fat[e]
    ensures CacheOk(fat', start, limit, lru)
  {
    forall r | r in lru ensures CachedRun(fat', start, limit, r) {
      assert CachedRun(fat, start, limit, r);
      forall k: nat | r.fcluster <= k <= r.fcluster + r.nrContig
        ensures Follow(fat', start, k) == At(r.dcluster + (k - r.fcluster))
      {
        FollowKept(fat, fat', start, k);
      }
      if r.fcluster > 1 {
        assert Follow(fat, start, r.fcluster) != Past;
        FollowKept(fat, fat', start, r.fcluster - 1);
      }
    }
  }

  /** Two well-formed chains that agree up to cluster `m` have the same runs up to there. */
  lemma CacheAgree(fat: seq<int>, c: seq<int>, fat': seq<int>, c': seq<int>, m: nat, limit: nat, lru: seq<Run>)
    requires IsChain(fat, c) && IsChain(fat', c') && m <= |c| && m <= |c'| && c[..m] == c'[..m] && m > 0
    requires CacheOk(fat, c[0], limit, lru) && forall r :: r in lru ==> r.fcluster + r.nrContig < m
    ensures CacheOk(fat', c'[0], limit, lru)
  {
    assert c[0] == c[..m][0] == c'[..m][0];
    forall k: nat | k < m ensures Follow(fat', c'[0], k) == Follow(fat, c[0], k) {
      FollowChain(fat, c, k);
      FollowChain(fat', c', k);
      assert c[k] == c[..m][k] == c'[..m][k];
    }
    forall r | r in lru ensures CachedRun(fat', c'[0], limit, r) {
      assert CachedRun(fat, c[0], limit, r);
    }
  }

  /** Cached runs of a well-formed chain end with the chain. */
  lemma CacheInside(fat: seq<int>, c: seq<int>, limit: nat, lru: seq<Run>, r: Run)
    requires IsChain(fat, c) && CacheOk(fat, c[0], limit, lru) && r in lru
    ensures r.fcluster + r.nrContig < |c|
  {
    assert CachedRun(fat, c[0], limit, r);
    FollowChain(fat, c, r.fcluster + r.nrContig);
    assert Follow(fat, c[0], r.fcluster + r.nrContig) == At(r.dcluster + r.nrContig);
  }
}
