/** The cluster side of an in-memory inode: the cache of runs (cache.c), finding, appending and
    cutting clusters (misc.c, file.c), and mapping blocks (inode.c). */
module FatInode {
  import opened Arithmetic
  import opened EntryCodec
  import opened FatChain
  import opened Layout
  import opened ChainWalk
  import opened FatVolume

  const FAT_MAX_CACHE := 8
  const FAT_CACHE_VALID := 0
  const MAX_BYTES := 0xFFFF_FFFF

  /** `struct fat_cache_id`: a run on its way into the cache. */
  datatype CacheId = CacheId(id: nat, run: Run)

  class Inode {
    const vol: Volume
    const isRoot: bool       // the root directory: a fixed area unless the table has 32 bits
    var iStart: int          // first cluster, 0 if none
    var iBlocks: nat         // in units of 512 bytes
    var iSize: nat
    var mmuPrivate: nat      // physically allocated size
    var lru: seq<Run>        // the cached runs, most recently used first
    var nrCaches: nat
    var cacheValidId: nat
    ghost var chain: seq<int>  // the clusters of the file

    constructor (vol: Volume, isRoot: bool)
      ensures this.vol == vol && this.isRoot == isRoot && iStart == 0 && iBlocks == 0 && iSize == 0 && mmuPrivate == 0
      ensures lru == [] && nrCaches == 0 && cacheValidId == FAT_CACHE_VALID + 1 && chain == []
    {
      this.vol, this.isRoot := vol, isRoot;
      iStart, iBlocks, iSize, mmuPrivate := 0, 0, 0, 0;
      lru, nrCaches, cacheValidId := [], 0, FAT_CACHE_VALID + 1;
      chain := [];
    }

    function Limit(): nat
      requires vol.g.ClusterSize() > 0
    {
      MAX_BYTES / vol.g.ClusterSize()
    }

    /** The cache is sound for the table as it is, well formed or not. */
    ghost predicate CacheValid()
      reads this, vol
    {
      && vol.g.ClusterSize() > 0
      && nrCaches == |lru| <= FAT_MAX_CACHE
      && FAT_CACHE_VALID < cacheValidId < 0x1_0000_0000
      && CacheOk(vol.fat, iStart, Limit(), lru)
    }

    /** The inode is right about the table `fat`: a well-formed chain and a sound cache. */
    ghost predicate Sound(fat: seq<int>)
      reads this
    {
      && vol.g.ClusterSize() > 0
      && nrCaches == |lru| <= FAT_MAX_CACHE
      && FAT_CACHE_VALID < cacheValidId < 0x1_0000_0000
      && CacheOk(fat, iStart, Limit(), lru)
      && FileChain(fat, iStart, chain) && |chain| <= Limit() + 1
      && (iStart == 0 ==> lru == [])
    }

    ghost predicate Valid()
      reads this, vol, vol.disk
    {
      vol.Valid() && Sound(vol.fat)
    }

    // ----- the cache ------------------------------------------------------------------

    /** `fat_cache_update_lru`. */
    method UpdateLru(i: nat)
      requires i < |lru|
      modifies this`lru
      ensures lru == ToFront(old(lru), i)
      ensures lru[0] == old(lru)[i] && multiset(lru) == multiset(old(lru))
      ensures MovedUp(old(lru), i, old(lru)[i], lru)
      ensures UniqueStarts(old(lru)) ==> UniqueStarts(lru)
    {
      ToFrontKeeps(lru, i);
      if i != 0 {
        lru := [lru[i]] + lru[..i] + lru[i + 1..];
      } else {
        assert lru == ToFront(lru, 0);
      }
      assert old(lru)[i := old(lru)[i]] == old(lru);
      FrontIs(old(lru), i, old(lru)[i], lru);
    }

    /** `fat_cache_lookup`: whatever the order of the list, the furthest cached position that is
        not beyond `fclus`. */
    method CacheLookup(fclus: nat) returns (offset: int, cid: CacheId, cachedF: int, cachedD: int)
      requires CacheValid()
      modifies this`lru
      ensures CacheValid() && forall r :: r in lru <==> r in old(lru)
      ensures offset < 0 <==> forall r :: r in old(lru) ==> r.fcluster > fclus
      ensures offset >= 0 ==>
        && cid.id == cacheValidId && cid.run in old(lru)
        && cid.run.fcluster <= cachedF == cid.run.fcluster + offset == ReachTo(cid.run, fclus)
        && cachedD == cid.run.dcluster + offset
        && Furthest(old(lru), fclus, cachedF)
      ensures if offset < 0 then lru == old(lru)
        else exists i :: 0 <= i < |old(lru)| && cid.run == old(lru)[i] && lru == ToFront(old(lru), i)
      ensures offset >= 0 ==> exists i :: MovedUp(old(lru), i, cid.run, lru)
    {
      hide ToFront, Follow, UniqueStarts, MovedUp;
      offset, cachedF, cachedD := -1, 0, 0;
      var hit := -1;
      var hitF := 0;
      var i := 0;
      while i < |lru|
        invariant 0 <= i <= |lru| && -1 <= hit < i
        invariant hit == -1 ==> hitF == 0 && offset == -1
        invariant hit >= 0 ==>
          && hitF == lru[hit].fcluster && 1 <= hitF <= fclus
          && offset == lru[hit].nrContig >= 0 && hitF + offset < fclus
        invariant forall j :: 0 <= j < i && lru[j].fcluster <= fclus ==> lru[j].fcluster <= hitF
      {
        var p := lru[i];
        assert CachedRun(vol.fat, iStart, Limit(), p);
        if p.fcluster <= fclus && hitF < p.fcluster {
          hit, hitF := i, p.fcluster;
          if p.fcluster + p.nrContig < fclus {
            offset := p.nrContig;
          } else {
            offset := fclus - p.fcluster;
            break;
          }
        }
        i := i + 1;
      }
      cid := CacheId(FAT_CACHE_VALID, Run(0, 0, 0));
      if hit != -1 {
        FurthestHit(vol.fat, iStart, Limit(), lru, hit, fclus);
        ToFrontKeeps(lru, hit);
        cid := CacheId(cacheValidId, lru[hit]);
        UpdateLru(hit);
        cachedF := cid.run.fcluster + offset;
        cachedD := cid.run.dcluster + offset;
      } else {
        assert forall r :: r in lru ==> CachedRun(vol.fat, iStart, Limit(), r);
      }
    }

    /** `fat_cache_merge`: the cached run with the same start, grown to the new length. A run
        with the same start and another place on disk would be a bug; there is none. */
    method CacheMerge(run: Run) returns (at: int)
      requires CacheValid() && CachedRun(vol.fat, iStart, Limit(), run)
      modifies this`lru
      ensures CacheValid() && -1 <= at < |lru| && |lru| == |old(lru)|
      ensures at == -1 ==> lru == old(lru) && forall r :: r in lru ==> r.fcluster != run.fcluster
      ensures at >= 0 ==>
        StartsAt(old(lru), at, run.fcluster) && lru == old(lru)[at := Longer(old(lru)[at], run)]
      ensures at >= 0 ==> Covers(lru[at], run) && Covers(lru[at], old(lru)[at]) && lru[at] in [run, old(lru)[at]]
    {
      at := 0;
      while at < |lru|
        invariant 0 <= at <= |lru|
        invariant forall j :: 0 <= j < at ==> lru[j].fcluster != run.fcluster
      {
        if lru[at].fcluster == run.fcluster {
          assert CachedRun(vol.fat, iStart, Limit(), lru[at]);
          RunsAgree(vol.fat, iStart, lru[at], run);
          assert lru[at].dcluster == run.dcluster;  // BUG_ON
          if run.nrContig > lru[at].nrContig {
            ReplaceKeeps(lru, at, run);
            lru := lru[at := lru[at].(nrContig := run.nrContig)];
          }
          return;
        }
        at := at + 1;
      }
      at := -1;
    }

    /** `fat_cache_add`; `memory` is whether a new list element can be had. The run is in front
        afterwards, unless it is none, was found before an invalidation, or there is no memory. */
    method CacheAdd(cid: CacheId, memory: bool)
      requires CacheValid()
      requires cid.run.fcluster != -1 ==> CachedRun(vol.fat, iStart, Limit(), cid.run)
      modifies this`lru, this`nrCaches
      ensures CacheValid()
      ensures forall r :: r in lru ==> r in old(lru) || r == cid.run
      ensures cid.run.fcluster != -1 && (cid.id == FAT_CACHE_VALID || cid.id == cacheValidId) && memory
        ==> |lru| > 0 && Covers(lru[0], cid.run)
      ensures if cid.run.fcluster == -1 || (cid.id != FAT_CACHE_VALID && cid.id != cacheValidId) then lru == old(lru)
        else Pushed(old(lru), cid.run, FAT_MAX_CACHE, memory, lru)
      ensures cid.run.fcluster != -1 && (cid.id == FAT_CACHE_VALID || cid.id == cacheValidId)
        ==> Remembers(old(lru), cid.run, memory, lru)
    {
      hide Pushed, Remembers;
      Remember(cid, memory);
      if cid.run.fcluster != -1 && (cid.id == FAT_CACHE_VALID || cid.id == cacheValidId) {
        SameStarts(old(lru), cid.run);
        PushedMeans(old(lru), cid.run, memory, lru);
      }
    }

    lemma SameStarts(l: seq<Run>, run: Run)
      requires vol.g.ClusterSize() > 0 && CacheOk(vol.fat, iStart, Limit(), l)
      requires CachedRun(vol.fat, iStart, Limit(), run)
      ensures forall r :: r in l && r.fcluster == run.fcluster ==> r.dcluster == run.dcluster
    {
      forall r | r in l && r.fcluster == run.fcluster ensures r.dcluster == run.dcluster {
        assert CachedRun(vol.fat, iStart, Limit(), r);
        RunsAgree(vol.fat, iStart, r, run);
      }
    }

    method Remember(cid: CacheId, memory: bool)
      requires CacheValid()
      requires cid.run.fcluster != -1 ==> CachedRun(vol.fat, iStart, Limit(), cid.run)
      modifies this`lru, this`nrCaches
      ensures CacheValid()
      ensures forall r :: r in lru ==> r in old(lru) || r == cid.run
      ensures cid.run.fcluster != -1 && (cid.id == FAT_CACHE_VALID || cid.id == cacheValidId) && memory
        ==> |lru| > 0 && Covers(lru[0], cid.run)
      ensures if cid.run.fcluster == -1 || (cid.id != FAT_CACHE_VALID && cid.id != cacheValidId) then lru == old(lru)
        else Pushed(old(lru), cid.run, FAT_MAX_CACHE, memory, lru)
    {
      hide ToFront, Follow, RunOk;
      if cid.run.fcluster == -1 {
        return;  // nothing to remember
      }
      if cid.id != FAT_CACHE_VALID && cid.id != cacheValidId {
        return;  // the run was found before the last invalidation
      }
      var at := CacheMerge(cid.run);
      if at == -1 {
        CachePush(cid.run, memory);
      } else {
        CacheFront(at);
        assert StartsAt(old(lru), at, cid.run.fcluster);
      }
    }

    /** A run of a new start: a new element at the head of the list, or the last one reused. */
    method CachePush(run: Run, memory: bool)
      requires CacheValid() && CachedRun(vol.fat, iStart, Limit(), run)
      requires forall r :: r in lru ==> r.fcluster != run.fcluster
      modifies this`lru, this`nrCaches
      ensures CacheValid()
      ensures lru == if |old(lru)| == FAT_MAX_CACHE then [run] + old(lru)[..FAT_MAX_CACHE - 1]
        else if memory then [run] + old(lru) else old(lru)
    {
      hide CachedRun, UniqueStarts;
      if nrCaches < FAT_MAX_CACHE {
        nrCaches := nrCaches + 1;
        if !memory {
          nrCaches := nrCaches - 1;
          return;
        }
        PushKeeps(lru, |lru|, run);
        assert lru[..|lru|] == lru;
        lru := [run] + lru;
      } else {
        PushKeeps(lru, |lru| - 1, run);
        lru := [run] + lru[..|lru| - 1];
      }
    }

    /** A run known already comes to the head of the list. */
    method CacheFront(at: nat)
      requires CacheValid() && at < |lru|
      modifies this`lru
      ensures CacheValid() && lru == ToFront(old(lru), at) && lru[0] == old(lru)[at]
      ensures forall r :: r in lru ==> r in old(lru)
    {
      hide CachedRun, UniqueStarts;
      ToFrontKeeps(lru, at);
      UpdateLru(at);
    }

    /** `fat_cache_inval_inode`. */
    method CacheInval()
      requires nrCaches == |lru| && cacheValidId < 0x1_0000_0000
      modifies this`lru, this`nrCaches, this`cacheValidId
      ensures lru == [] && nrCaches == 0
      ensures cacheValidId < 0x1_0000_0000
      ensures cacheValidId != FAT_CACHE_VALID && cacheValidId != old(cacheValidId)
    {
      while |lru| > 0
        invariant nrCaches == |lru|
        modifies this`lru, this`nrCaches
      {
        lru := lru[1..];
        nrCaches := nrCaches - 1;
      }
      cacheValidId := (cacheValidId + 1) % 0x1_0000_0000;
      if cacheValidId == FAT_CACHE_VALID {
        cacheValidId := cacheValidId + 1;
      }
    }

    // ----- walking --------------------------------------------------------------------

    /** The run being followed: none yet, or one that is true and ends where the walk stands. */
    ghost predicate Following(run: Run, f: int, target: int)
      reads vol, this`iStart
      requires vol.g.ClusterSize() > 0
    {
      match run
      case Run(fclus, dclus, n) =>
        if fclus == -1 then dclus == -1 && n == 0 && f == 0
        else
          && CachedRun(vol.fat, iStart, Limit(), run) && fclus <= f <= fclus + n
          && (f < target ==> fclus + n == f)
    }

    /** Found since the last invalidation. */
    predicate Current(cid: CacheId)
      reads this
    {
      cid.id == FAT_CACHE_VALID || cid.id == cacheValidId
    }

    /** The first run of the list tells where cluster `f` of the file is; there is none for the
        first cluster. */
    predicate Remembered(f: nat)
      reads this
    {
      f > 0 ==> |lru| > 0 && lru[0].fcluster <= f <= lru[0].fcluster + lru[0].nrContig
    }

    /** A walk to `target` under way: still at a known position from which the rest of the plain
        walk leads to `goal`, or stopped at `goal`. */
    ghost predicate Midway(r: Reach, run: Run, target: nat, goal: Reach)
      reads vol, this`iStart
      requires vol.g.ClusterSize() > 0
    {
      match r
      case Found(f, d) =>
        && f <= target && f <= Limit() + 1 && Follow(vol.fat, iStart, f) == At(d)
        && Following(run, f, target) && Walk(vol.fat, Limit(), f, d, target) == goal
      case AtEof(f, _) => r == goal && Following(run, f, target)
      case Broken(_, _) => r == goal && (run.fcluster == -1 || CachedRun(vol.fat, iStart, Limit(), run))
    }

    /** `fat_get_cluster`: through the cache, exactly what the plain walk from the first cluster
        finds, on any table; where the walk ended is remembered if there is `memory` for it. */
    method GetCluster(cluster: nat, memory: bool) returns (r: Reach)
      requires vol.Valid() && CacheValid() && iStart != 0
      modifies this`lru, this`nrCaches, vol`held
      ensures vol.Valid() && CacheValid() && vol.held == old(vol.held)
      ensures r == Walk(vol.fat, Limit(), 0, iStart, cluster) && WalkIs(vol.fat, Limit(), iStart, cluster, r)
      ensures forall x :: x in lru ==> x in old(lru) || x.fcluster + x.nrContig <= r.f
      ensures memory && !r.Broken? ==> Remembered(r.f)
    {
      hide Walk, WalkIs, CacheOk, CachedRun, Tells, Lent, Volume.Valid;
      WalkMeans(vol.fat, Limit(), iStart, cluster);
      if cluster == 0 {
        NoWalk(vol.fat, Limit(), 0, iStart, 0);
        return Found(0, iStart);
      }
      var cid, fe;
      r, cid, fe := WalkCached(cluster);
      AddWalked(r, cid, memory);
      LetGo(fe, old(vol.held));
    }

    /** The buffers of a walk are dropped. */
    method LetGo(fe: FatEntry, ghost before: multiset<nat>)
      requires vol.Valid() && CacheValid() && Lent(fe, before)
      modifies vol`held
      ensures vol.Valid() && CacheValid() && vol.held == before
    {
      hide Decodes, MirroredExcept, SameData, CacheOk;
      var _ := vol.EntBrelse(fe);
    }

    /** The walk, from the furthest known position, and the run it was on at its end. */
    method WalkCached(cluster: nat) returns (r: Reach, cid: CacheId, fe: FatEntry)
      requires vol.Valid() && CacheValid() && cluster > 0
      modifies this`lru, vol`held
      ensures vol.Valid() && CacheValid() && Lent(fe, old(vol.held))
      ensures r == Walk(vol.fat, Limit(), 0, iStart, cluster)
      ensures Current(cid) && (!r.Broken? ==> Tells(cid.run, r.f))
      ensures cid.run.fcluster == -1 || CachedRun(vol.fat, iStart, Limit(), cid.run)
      ensures forall x :: x in lru <==> x in old(lru)
      ensures cid.run in lru || cid.run.fcluster + cid.run.nrContig <= r.f
    {
      hide Decodes, MirroredExcept, SameData, Walk, Midway, CacheOk;
      ghost var goal := Walk(vol.fat, Limit(), 0, iStart, cluster);
      r, cid := WalkStart(cluster, goal);
      r, cid, fe := WalkOn(r, cid, cluster, goal, lru);
      WalkOver(r, cid.run, cluster, goal);
    }

    /** A walk that was not broken off leaves its run in the cache. */
    method AddWalked(r: Reach, cid: CacheId, memory: bool)
      requires CacheValid() && vol.g.ClusterSize() > 0
      requires cid.run.fcluster == -1 || CachedRun(vol.fat, iStart, Limit(), cid.run)
      requires cid.run in lru || cid.run.fcluster + cid.run.nrContig <= r.f
      requires Current(cid) && (!r.Broken? ==> Tells(cid.run, r.f))
      modifies this`lru, this`nrCaches
      ensures CacheValid() && forall x :: x in lru ==> x in old(lru) || x.fcluster + x.nrContig <= r.f
      ensures memory && !r.Broken? ==> Remembered(r.f)
    {
      if !r.Broken? {
        CacheAdd(cid, memory);
      }
    }

    /** The loop of the walk. */
    method WalkOn(r0: Reach, cid0: CacheId, cluster: nat, ghost goal: Reach, ghost l: seq<Run>)
        returns (r: Reach, cid: CacheId, fe: FatEntry)
      requires vol.Valid() && CacheValid() && r0.Found? && Midway(r0, cid0.run, cluster, goal) && Current(cid0)
      requires cid0.run in l || cid0.run.fcluster + cid0.run.nrContig <= r0.f
      modifies vol`held
      ensures vol.Valid() && Lent(fe, old(vol.held)) && Current(cid)
      ensures Midway(r, cid.run, cluster, goal) && !(r.Found? && r.f < cluster)
      ensures cid.run in l || cid.run.fcluster + cid.run.nrContig <= r.f
    {
      r, cid, fe := r0, cid0, InitEntry();
      while r.Found? && r.f < cluster
        invariant vol.Valid() && Lent(fe, old(vol.held)) && Current(cid)
        invariant Midway(r, cid.run, cluster, goal)
        invariant cid.run in l || cid.run.fcluster + cid.run.nrContig <= r.f
        decreases r.Found?, cluster - r.f
        modifies vol`held
      {
        r, cid, fe := WalkStep(r, cid, fe, cluster, goal, old(vol.held));
      }
    }

    /** The walk is over: the plain walk is where it stands. */
    lemma WalkOver(r: Reach, run: Run, cluster: nat, goal: Reach)
      requires vol.g.ClusterSize() > 0 && Midway(r, run, cluster, goal) && !(r.Found? && r.f < cluster)
      ensures r == goal && (run.fcluster == -1 || CachedRun(vol.fat, iStart, Limit(), run))
      ensures !r.Broken? ==> Tells(run, r.f)
    {
    }

    /** The run tells where cluster `f` of the file is, if that is not the first. */
    predicate Tells(run: Run, f: nat) {
      if run.fcluster == -1 then f == 0 else run.fcluster <= f <= run.fcluster + run.nrContig
    }

    /** Start from the furthest cached position, or from the first cluster. */
    method WalkStart(cluster: nat, ghost goal: Reach) returns (r: Reach, cid: CacheId)
      requires CacheValid() && cluster > 0
      requires goal == Walk(vol.fat, Limit(), 0, iStart, cluster)
      modifies this`lru
      ensures CacheValid() && forall x :: x in lru <==> x in old(lru)
      ensures r.Found? && Midway(r, cid.run, cluster, goal) && Current(cid)
      ensures cid.run in lru || cid.run.fcluster + cid.run.nrContig <= r.f
    {
      var offset, cachedF, cachedD;
      offset, cid, cachedF, cachedD := CacheLookup(cluster);
      if offset < 0 {
        cid := CacheId(FAT_CACHE_VALID, Run(-1, -1, 0));
        r := Found(0, iStart);
      } else {
        assert CachedRun(vol.fat, iStart, Limit(), cid.run);
        assert Follow(vol.fat, iStart, cachedF) == At(cachedD);
        r := Found(cachedF, cachedD);
      }
      WalkSkip(vol.fat, Limit(), iStart, r.f, r.d, cluster);
    }

    /** One round of the walk: read the link and go one cluster further, or stop. */
    method WalkStep(r0: Reach, cid0: CacheId, fe0: FatEntry, cluster: nat,
                    ghost goal: Reach, ghost before: multiset<nat>)
      returns (r: Reach, cid: CacheId, fe: FatEntry)
      requires vol.Valid() && CacheValid() && Lent(fe0, before)
      requires r0.Found? && r0.f < cluster && Midway(r0, cid0.run, cluster, goal)
      modifies vol`held
      ensures vol.Valid() && Lent(fe, before)
      ensures Midway(r, cid.run, cluster, goal)
      ensures if r.Found? then r.f == r0.f + 1 else r.f == r0.f
      ensures cid == cid0 || cid.run.fcluster + cid.run.nrContig <= r.f
      ensures Current(cid0) ==> Current(cid)
    {
      cid, fe := cid0, fe0;
      r := Broken(r0.f, r0.d);
      StepEnds(r0, cid0.run, cluster, goal);
      // the limit ends the walk on a chain that goes round
      if r0.f <= Limit() {
        var status, nr;
        status, nr, fe := ReadLink(fe, r0.d, before);
        r, cid := StepFrom(r0, cid0, status, nr, cluster, goal);
      }
    }

    /** What the entry read makes of the walk. */
    method StepFrom(r0: Reach, cid0: CacheId, status: Status, nr: int, cluster: nat, ghost goal: Reach)
        returns (r: Reach, cid: CacheId)
      requires vol.Valid() && CacheValid()
      requires r0.Found? && r0.f < cluster && r0.f <= Limit() && Midway(r0, cid0.run, cluster, goal)
      requires status == if IsCluster(vol.fat, r0.d) then Ok else IoError
      requires status == Ok ==> nr == vol.fat[r0.d]
      ensures Midway(r, cid.run, cluster, goal)
      ensures if r.Found? then r.f == r0.f + 1 else r.f == r0.f
      ensures cid == cid0 || cid.run.fcluster + cid.run.nrContig <= r.f
      ensures Current(cid0) ==> Current(cid)
    {
      cid := cid0;
      StepEnds(r0, cid0.run, cluster, goal);
      if status != Ok || nr == FAT_ENT_FREE {
        r := Broken(r0.f, r0.d);
      } else if nr == FAT_ENT_EOF {
        r := AtEof(r0.f, r0.d);
      } else {
        StepGoesOn(r0, cid0.run, cluster, goal);
        cid := Advance(cid, r0.f + 1, nr, cluster);
        r := Found(r0.f + 1, nr);
      }
    }

    /** Where the plain walk stops, so does the step. */
    lemma StepEnds(r0: Reach, run: Run, cluster: nat, goal: Reach)
      requires vol.Valid() && CacheValid() && r0.Found? && r0.f < cluster && Midway(r0, run, cluster, goal)
      ensures r0.f > Limit() || !IsCluster(vol.fat, r0.d) || vol.fat[r0.d] == FAT_ENT_FREE
        ==> Midway(Broken(r0.f, r0.d), run, cluster, goal)
      ensures r0.f <= Limit() && IsCluster(vol.fat, r0.d) && vol.fat[r0.d] == FAT_ENT_EOF
        ==> Midway(AtEof(r0.f, r0.d), run, cluster, goal)
    {
      if r0.f <= Limit() {
        WalkNext(vol.fat, Limit(), iStart, r0.f, r0.d, cluster);
      }
    }

    lemma StepGoesOn(r0: Reach, run: Run, cluster: nat, goal: Reach)
      requires vol.Valid() && CacheValid() && r0.Found? && r0.f < cluster && Midway(r0, run, cluster, goal)
      requires r0.f <= Limit() && IsCluster(vol.fat, r0.d) && IsLink(vol.fat[r0.d])
      ensures Follow(vol.fat, iStart, r0.f + 1) == At(vol.fat[r0.d])
      ensures Walk(vol.fat, Limit(), r0.f + 1, vol.fat[r0.d], cluster) == goal
    {
      WalkNext(vol.fat, Limit(), iStart, r0.f, r0.d, cluster);
    }

    /** The entry's buffers are the only ones held on top of `before`. */
    ghost predicate Lent(fe: FatEntry, before: multiset<nat>)
      reads vol
    {
      match fe
      case FatEntry(_, _, _, bhs) =>
        vol.held == before + multiset(bhs) && vol.held - multiset(bhs) == before
        && |bhs| <= 2 && (vol.g.ft != Fat12 ==> |bhs| <= 1)
    }

    method ReadLink(fe0: FatEntry, entry: int, ghost before: multiset<nat>)
      returns (status: Status, next: int, fe: FatEntry)
      requires vol.Valid() && Lent(fe0, before)
      modifies vol`held
      ensures vol.Valid() && Lent(fe, before)
      ensures status == if IsCluster(vol.fat, entry) then Ok else IoError
      ensures status == Ok ==> Points(vol.g, fe) && fe.entry == entry && next == vol.fat[entry]
      ensures status != Ok ==> fe.bhs == []
    {
      ghost var h0 := vol.held;
      status, next, fe := vol.EntRead(fe0, entry);
      HeldStep(before, h0, fe0.bhs, vol.held, fe.bhs);
    }

    /** `cache_contiguous` and `cache_init`: one cluster further, on the same run if the cluster
        is the next on disk, else on a new one. */
    method Advance(cid: CacheId, fclus: nat, dclus: int, ghost target: int) returns (r: CacheId)
      requires CacheValid() && 1 <= fclus <= target && fclus <= Limit() + 1
      requires Following(cid.run, fclus - 1, target)
      requires Follow(vol.fat, iStart, fclus) == At(dclus) && dclus != FAT_ENT_FREE
      ensures Following(r.run, fclus, target) && r.run.fcluster + r.run.nrContig == fclus
      ensures Current(cid) ==> Current(r)
    {
      r := cid.(run := cid.run.(nrContig := cid.run.nrContig + 1));
      if cid.run.fcluster != -1 {
        assert CachedRun(vol.fat, iStart, Limit(), cid.run);
        assert Follow(vol.fat, iStart, fclus - 1) == At(cid.run.dcluster + cid.run.nrContig);
      }
      if r.run.dcluster + r.run.nrContig != dclus {
        r := CacheId(FAT_CACHE_VALID, Run(fclus, dclus, 0));
      } else {
        RunExtend(vol.fat, iStart, cid.run);
      }
    }

    // ----- appending ------------------------------------------------------------------

    /** The growth of a directory at the end of `fat_add_entries`: new clusters, and sizes that
        grow with them. */
    method GrowDirectory(nr: nat) returns (status: Status)
      requires Valid() && 1 <= nr <= MAX_BUF_PER_PAGE / 2 && |chain| + nr <= Limit() + 1
      modifies this`iStart, this`iBlocks, this`lru, this`nrCaches, this`cacheValidId, this`chain
      modifies this`iSize, this`mmuPrivate
      modifies vol`held, vol`fat, vol`stale, vol`prevFree, vol`freeClusters, vol`freeClusValid, vol.disk
      ensures Valid() && vol.held == old(vol.held) && vol.stale <= old(vol.stale)
      ensures status == if old(vol.NoRoom(nr)) then NoSpace else Ok
      ensures |chain| == |old(chain)| + (if status == Ok then nr else 0)
      ensures chain == old(chain) + old(vol.Taking(nr)) && vol.Info() == old(vol.InfoAfter(nr))
      ensures status != Ok ==> iSize == old(iSize) && mmuPrivate == old(mmuPrivate)
      ensures iBlocks == old(iBlocks) + |old(vol.Taking(nr))| * Unit()
      ensures old(Sized()) && old(iSize) % vol.g.ClusterSize() == 0 ==> Sized()
      ensures status == Ok ==> mmuPrivate == old(mmuPrivate) + nr * vol.g.ClusterSize()
      ensures status == Ok && old(iSize) % vol.g.ClusterSize() == 0 ==> iSize == old(iSize) + nr * vol.g.ClusterSize()
      ensures status == Ok ==>
        iSize == CeilDiv(old(iSize), vol.g.ClusterSize()) * vol.g.ClusterSize() + nr * vol.g.ClusterSize()
      ensures Grown(old(vol.fat), old(chain), vol.fat, chain) && (old(vol.Exact()) ==> vol.Exact())
    {
      hide Decodes, MirroredExcept, SameData, Grown, CacheOk, CountFree, Volume.Taking, Volume.InfoAfter, Volume.NoRoom;
      hide FileChain, Layout.Holds, CeilDiv;
      status := AddClusters(nr);
      if status == Ok {
        Distribute(|chain| - nr, nr, Unit());
        GrowSizes(nr);
      }
    }

    /** The sizes after `nr` clusters more, that of the file rounded up to clusters first. */
    method GrowSizes(nr: nat)
      requires vol.g.Valid() && vol.g.ClusterSize() > 0 && nr > 0
      modifies this`iSize, this`mmuPrivate
      ensures mmuPrivate == old(mmuPrivate) + nr * vol.g.ClusterSize()
      ensures iSize == CeilDiv(old(iSize), vol.g.ClusterSize()) * vol.g.ClusterSize() + nr * vol.g.ClusterSize()
      ensures old(iSize) % vol.g.ClusterSize() == 0 ==> iSize == old(iSize) + nr * vol.g.ClusterSize()
      ensures ClustersFor(mmuPrivate) == old(ClustersFor(mmuPrivate)) + nr
    {
      hide CeilDiv;
      var c := vol.g.ClusterSize();
      WholeSize(iSize, c);
      CeilShift(mmuPrivate, nr, c);
      if iSize % c != 0 {
        iSize := CeilDiv(iSize, c) * c;
      }
      iSize := iSize + nr * c;
      mmuPrivate := mmuPrivate + nr * c;
    }

    /** `fat_calc_dir_size`: the size of a directory is that of its chain. */
    method CalcDirSize() returns (status: Status)
      requires Valid()
      modifies this`iSize, this`lru, this`nrCaches, vol`held
      ensures Valid() && vol.held == old(vol.held)
      ensures status == Ok && iSize == |chain| * vol.g.ClusterSize()
    {
      hide WalkIs;
      iSize := 0;
      status := Ok;
      if iStart == 0 {
        return;
      }
      LimitSmall(vol.g);
      WalkChain(vol.fat, chain, Limit(), FAT_ENT_EOF);
      var memory: bool := *;
      var r := GetCluster(FAT_ENT_EOF, memory);
      if r.Broken? {
        return IoError;
      }
      iSize := (r.f + 1) * vol.g.ClusterSize();
    }

    /** 512-byte units in a cluster. */
    function Unit(): nat {
      vol.g.ClusterSize() / 512
    }

    /** Link the end of the chain on disk to `next`. */
    method LinkLastCluster(last: int, next: int, ghost before: multiset<nat>)
      requires vol.Valid() && vol.held == before && IsCluster(vol.fat, last) && IsCluster(vol.fat, next)
      modifies vol`held, vol`fat, vol`stale, vol.disk
      ensures vol.Valid() && vol.held == before
      ensures vol.fat == old(vol.fat)[last := next] && vol.stale <= old(vol.stale)
    {
      var fe := InitEntry();
      var status, cur;
      status, cur, fe := ReadLink(fe, last, before);
      vol.EntWrite(fe, next);
      fe := vol.EntBrelse(fe);
    }

    /** The last cluster of the file and how many there are; -EIO on a broken chain. */
    method FindLast() returns (status: Status, last: int, newFclus: nat)
      requires Valid()
      modifies this`lru, this`nrCaches, vol`held
      ensures Valid() && vol.held == old(vol.held)
      ensures status == Ok && newFclus == |chain| && last == LastOr(chain, 0)
    {
      hide WalkIs;
      status, last, newFclus := Ok, 0, 0;
      if iStart != 0 {
        LimitSmall(vol.g);
        WalkChain(vol.fat, chain, Limit(), FAT_ENT_EOF);
        var memory: bool := *;
        var r := GetCluster(FAT_ENT_EOF, memory);
        newFclus, last := r.f + 1, r.d;
        if r.Broken? {
          status := IoError;
        }
      }
    }

    /** A file that has clusters: write the link into the last one. */
    method AttachNext(last: int, newDclus: int, ghost cl: seq<int>)
      requires Valid() && iStart != 0 && last == LastOr(chain, 0)
      requires IsChain(vol.fat, cl) && cl[0] == newDclus && Disjoint(chain, cl) && |chain| + |cl| <= Limit() + 1
      modifies this`chain, vol`held, vol`fat, vol`stale, vol.disk
      ensures Valid() && vol.held == old(vol.held) && vol.stale <= old(vol.stale)
      ensures chain == old(chain) + cl
      ensures vol.fat == Appended(old(vol.fat), old(chain), newDclus)
    {
      ghost var fat0 := vol.fat;
      assert IsCluster(fat0, cl[0]);
      LastHoldsEof(fat0, chain);
      LinkLastCluster(last, newDclus, vol.held);
      ChainJoin(fat0, chain, cl);
      CacheKept(fat0, vol.fat, iStart, Limit(), lru);
      chain := chain + cl;
    }

    /** Write the link, or make the new cluster the first. */
    method Attach(last: int, newDclus: int, ghost cl: seq<int>)
      requires Valid() && last == LastOr(chain, 0)
      requires IsChain(vol.fat, cl) && cl[0] == newDclus && Disjoint(chain, cl) && |chain| + |cl| <= Limit() + 1
      modifies this`iStart, this`chain, vol`held, vol`fat, vol`stale, vol.disk
      ensures Valid() && vol.held == old(vol.held) && vol.stale <= old(vol.stale)
      ensures chain == old(chain) + cl
      ensures vol.fat == Appended(old(vol.fat), old(chain), newDclus)
    {
      LastNotZero(vol.fat, iStart, chain);
      if last != 0 {
        AttachNext(last, newDclus, cl);
      } else {
        assert IsCluster(vol.fat, cl[0]);
        iStart := newDclus;
        chain := chain + cl;
        assert chain == cl;
      }
    }

    /** `fat_chain_add`: hang the chain that starts with `newDclus` behind the file. */
    method ChainAdd(newDclus: int, nr: nat, ghost cl: seq<int>) returns (status: Status)
      requires Valid() && IsChain(vol.fat, cl) && cl[0] == newDclus && nr == |cl| && Disjoint(chain, cl)
      requires |chain| + nr <= Limit() + 1
      modifies this`iStart, this`iBlocks, this`lru, this`nrCaches, this`cacheValidId, this`chain
      modifies vol`held, vol`fat, vol`stale, vol.disk
      ensures Valid() && status == Ok && vol.held == old(vol.held) && vol.stale <= old(vol.stale)
      ensures chain == old(chain) + cl
      ensures vol.fat == Appended(old(vol.fat), old(chain), newDclus)
      ensures iBlocks == old(iBlocks) + nr * Unit()
      ensures CountFree(vol.fat) == CountFree(old(vol.fat))
    {
      ghost var fat0, chain0 := vol.fat, chain;
      var last, newFclus;
      status, last, newFclus := FindLast();
      if status != Ok {
        return;
      }
      Attach(last, newDclus, cl);
      assert CountFree(vol.fat) == CountFree(fat0) by {
        assert IsCluster(fat0, cl[0]);
        AppendedCount(fat0, chain0, newDclus);
      }
      LimitSmall(vol.g);
      if newFclus != iBlocks / Unit() {
        CacheInval();
      }
      iBlocks := iBlocks + nr * Unit();
    }

    // ----- cutting --------------------------------------------------------------------

    /** Keep `skip` clusters: write EOF into the last one kept. `more` says that there was a
        cluster after it, `freeStart`. */
    method CutChain(skip: nat) returns (status: Status, more: bool, freeStart: int)
      requires Valid() && lru == [] && iStart != 0 && skip > 0
      modifies this`lru, this`nrCaches, this`chain, vol`held, vol`fat, vol`stale, vol.disk
      ensures Valid() && status == Ok && vol.held == old(vol.held) && vol.stale <= old(vol.stale)
      ensures more == (skip < |old(chain)|)
      ensures !more ==> vol.fat == old(vol.fat) && chain == old(chain)
      ensures more ==>
        && IsCluster(old(vol.fat), old(chain)[skip - 1]) && freeStart == old(chain)[skip]
        && vol.fat == old(vol.fat)[old(chain)[skip - 1] := FAT_ENT_EOF] && chain == old(chain)[..skip]
      ensures forall x :: x in lru ==> x.fcluster + x.nrContig < skip
    {
      hide WalkIs;
      WalkChain(vol.fat, chain, Limit(), skip - 1);
      status, more, freeStart := Ok, false, 0;
      var memory: bool := *;
      var r := GetCluster(skip - 1, memory);
      if r.Broken? {
        status := IoError;
      } else if r.Found? {
        status, more, freeStart := EndAt(skip, r.d);
      }
    }

    /** Write EOF into the last cluster kept. */
    method EndHere(fe: FatEntry, skip: nat)
      requires Valid() && iStart != 0 && 0 < skip < |chain|
      requires Points(vol.g, fe) && fe.entry == chain[skip - 1] && multiset(fe.bhs) <= vol.held
      requires forall x :: x in lru ==> x.fcluster + x.nrContig < skip
      modifies this`chain, vol`fat, vol`stale, vol.disk
      ensures Valid() && vol.stale <= old(vol.stale)
      ensures vol.fat == old(vol.fat)[old(chain)[skip - 1] := FAT_ENT_EOF] && chain == old(chain)[..skip]
    {
      hide Decodes, MirroredExcept, SameData, Walk, Follow, CacheOk;
      ghost var fat0, chain0 := vol.fat, chain;
      vol.EntWrite(fe, FAT_ENT_EOF);
      ChainCut(fat0, chain0, skip);
      chain := chain[..skip];
      CacheAgree(fat0, chain0, vol.fat, chain, skip, Limit(), lru);
    }

    /** The last cluster kept is found: unless it is the last of the file, end the file there. */
    method EndAt(skip: nat, dclus: int) returns (status: Status, more: bool, freeStart: int)
      requires Valid() && iStart != 0 && 0 < skip <= |chain| && dclus == chain[skip - 1]
      requires forall x :: x in lru ==> x.fcluster + x.nrContig < skip
      modifies this`chain, vol`held, vol`fat, vol`stale, vol.disk
      ensures Valid() && status == Ok && vol.held == old(vol.held) && vol.stale <= old(vol.stale)
      ensures more == (skip < |old(chain)|)
      ensures !more ==> vol.fat == old(vol.fat) && chain == old(chain)
      ensures more ==>
        && IsCluster(old(vol.fat), old(chain)[skip - 1]) && freeStart == old(chain)[skip]
        && vol.fat == old(vol.fat)[old(chain)[skip - 1] := FAT_ENT_EOF] && chain == old(chain)[..skip]
    {
      hide Decodes, MirroredExcept, SameData, Walk, Follow, CacheOk;
      ghost var fat0 := vol.fat;
      assert IsCluster(fat0, chain[skip - 1]) && fat0[chain[skip - 1]] == Link(chain, skip - 1);
      assert skip < |chain| ==> IsCluster(fat0, chain[skip]);
      more, freeStart := false, 0;
      var fe := InitEntry();
      ghost var before := vol.held;
      var next;
      status, next, fe := ReadLink(fe, dclus, before);
      if next == FAT_ENT_FREE {
        status := IoError;
      } else if next != FAT_ENT_EOF {
        more, freeStart := true, next;
        EndHere(fe, skip);
      }
      fe := vol.EntBrelse(fe);
    }

    /** Free the clusters behind the chain kept; nothing of the chain kept is touched. */
    method FreeTail(freeStart: int, ghost rest: seq<int>) returns (status: Status)
      requires Valid() && IsChain(vol.fat, rest) && rest[0] == freeStart && Disjoint(rest, chain)
      requires forall x :: x in lru ==> x.fcluster + x.nrContig < |chain|
      modifies vol`held, vol`fat, vol`stale, vol`freeClusters, vol.disk
      ensures Valid() && status == Ok && vol.held == old(vol.held) && vol.stale <= old(vol.stale)
      ensures vol.fat == Cleared(old(vol.fat), rest)
      ensures vol.freeClusters == Increased(old(vol.freeClusters), |rest|)
    {
      ghost var fat0 := vol.fat;
      FreeWalkChain(fat0, rest);
      status := vol.FreeClusters(freeStart);
      NothingNew(vol.g, fat0, vol.fat, old(vol.stale), vol.stale);
      if iStart != 0 {
        ChainFrame(fat0, vol.fat, chain);
        CacheAgree(fat0, chain, vol.fat, chain, |chain|, Limit(), lru);
      }
    }

    /** `fat_free`: free all clusters after the `skip`th. */
    method Free(skip: nat) returns (status: Status)
      requires Valid()
      modifies this`iStart, this`iBlocks, this`lru, this`nrCaches, this`cacheValidId, this`chain
      modifies vol`held, vol`fat, vol`stale, vol`freeClusters, vol.disk
      ensures Valid() && status == Ok && vol.held == old(vol.held) && vol.stale <= old(vol.stale)
      ensures 0 < skip < |old(chain)| ==> IsCluster(old(vol.fat), old(chain)[skip - 1])
      ensures chain == if skip < |old(chain)| then old(chain)[..skip] else old(chain)
      ensures vol.fat == CutFrom(old(vol.fat), old(chain), skip)
      ensures iBlocks == if skip < |old(chain)| then skip * Unit() else old(iBlocks)
      ensures vol.freeClusters == Increased(old(vol.freeClusters), |old(chain)| - |chain|)
      ensures old(vol.Exact()) ==> vol.Exact()
    {
      hide Decodes, MirroredExcept, SameData, Walk, Follow, CountFree, CachedRun, Cleared, Layout.Valid;
      hide IsChain, Disjoint;
      status := Ok;
      if iStart == 0 {
        return;
      }
      ChainClusters(vol.fat, chain);
      ghost var fat0, chain0 := vol.fat, chain;
      assert skip < |chain0| ==> skip > 0 ==> IsCluster(fat0, chain0[skip - 1]);
      CacheInval();
      var freeStart := iStart;
      if skip == 0 {
        iStart := 0;
        chain := [];
        assert chain0[0..] == chain0;
        CutFromChain(fat0, chain0, 0);
      } else {
        var more;
        status, more, freeStart := CutChain(skip);
        if status != Ok || !more {
          return;
        }
        CutFromChain(fat0, chain0, skip);
        ChainCut(fat0, chain0, skip);
        assert chain0[skip..][0] == freeStart;
      }
      assert chain == chain0[..skip];
      iBlocks := skip * Unit();
      status := FreeTail(freeStart, chain0[skip..]);
    }

    /** `fat_truncate_blocks`: the caller has set the size to `offset` already. */
    method TruncateBlocks(offset: nat)
      requires Valid()
      modifies this`iStart, this`iBlocks, this`lru, this`nrCaches, this`cacheValidId, this`chain, this`mmuPrivate
      modifies vol`held, vol`fat, vol`stale, vol`freeClusters, vol.disk
      ensures Valid() && vol.held == old(vol.held) && vol.stale <= old(vol.stale)
      ensures var nr := ClustersFor(offset);
        && (0 < nr < |old(chain)| ==> IsCluster(old(vol.fat), old(chain)[nr - 1]))
        && chain == (if nr < |old(chain)| then old(chain)[..nr] else old(chain))
        && vol.fat == CutFrom(old(vol.fat), old(chain), nr)
        && iBlocks == (if nr < |old(chain)| then nr * Unit() else old(iBlocks))
      ensures vol.freeClusters == Increased(old(vol.freeClusters), |old(chain)| - |chain|)
      ensures old(vol.Exact()) ==> vol.Exact()
      ensures mmuPrivate == if old(mmuPrivate) > offset then offset else old(mmuPrivate)
      ensures old(Sized()) && iSize <= offset ==> Sized()
    {
      LimitSmall(vol.g);
      CeilMono(offset, mmuPrivate, vol.g.ClusterSize());
      CeilMono(mmuPrivate, offset, vol.g.ClusterSize());
      if mmuPrivate > offset {
        mmuPrivate := offset;
      }
      var nrClusters := ClustersFor(offset);
      var _ := Free(nrClusters);
    }

    /** Clusters needed for `n` bytes. */
    function ClustersFor(n: nat): nat {
      CeilDiv(n, vol.g.ClusterSize())
    }

    /** The least number of clusters that hold `n` bytes. */
    lemma ClustersHold(n: nat, k: nat)
      requires vol.g.ClusterSize() > 0
      ensures ClustersFor(n) <= k <==> n <= k * vol.g.blockSize * vol.g.secPerClus
    {
      CeilDivChar(n, vol.g.ClusterSize(), k);
      Assoc(k, vol.g.blockSize, vol.g.secPerClus);
    }

    /** A chain for any size that fits the 32 bits of a directory entry is walked to its end. */
    lemma LimitSuffices(n: nat)
      requires vol.g.ClusterSize() > 0 && n < 0x1_0000_0000
      ensures ClustersFor(n) <= Limit() + 1
      ensures Limit() * vol.g.ClusterSize() <= 0xFFFF_FFFF < (Limit() + 1) * vol.g.ClusterSize()
    {
      var size := vol.g.ClusterSize();
      DivSplit(MAX_BYTES, size);
      Distribute(Limit(), 1, size);
      CeilDivChar(n, size, Limit() + 1);
    }

    // ----- mapping blocks ---------------------------------------------------------------

    /** The first block past what may be mapped for `sector`. */
    function LastBlock(sector: nat, create: bool): nat
      reads this
    {
      var size := CeilDiv(iSize, vol.g.blockSize);
      if sector >= size && create then CeilDiv(mmuPrivate, vol.g.blockSize) else size
    }

    /** Where block `sector` of the file lies on the volume; 0 if nowhere. */
    ghost function BlockAt(sector: nat): int
      reads this
      requires vol.g.secPerClus > 0
    {
      var k := sector / vol.g.secPerClus;
      if k < |chain| then ClusterBlock(vol.g, chain[k]) + sector % vol.g.secPerClus else 0
    }

    /** The `n` blocks of the file from `sector` on lie behind one another from `phys` on. */
    ghost predicate InOrder(sector: nat, n: nat, phys: int)
      reads this
      requires vol.g.secPerClus > 0
    {
      forall s: nat :: sector <= s < sector + n ==> BlockAt(s) == phys + (s - sector)
    }

    /** Blocks of one cluster lie behind one another. */
    lemma BlocksInOrder(sector: nat, n: nat)
      requires vol.g.secPerClus > 0 && sector / vol.g.secPerClus < |chain|
      requires sector % vol.g.secPerClus + n <= vol.g.secPerClus
      ensures InOrder(sector, n, BlockAt(sector))
    {
      var c := vol.g.secPerClus;
      forall s: nat | sector <= s < sector + n ensures BlockAt(s) == BlockAt(sector) + (s - sector) {
        DivSplit(sector, c);
        DivOf(sector / c, sector % c + (s - sector), c);
      }
    }

    /** `fat_bmap`. */
    method Bmap(sector: nat, create: bool) returns (status: Status, phys: int, mapped: nat)
      requires Valid()
      modifies this`lru, this`nrCaches, vol`held
      ensures Valid() && vol.held == old(vol.held)
      ensures vol.g.ft != Fat32 && isRoot ==>
        && status == Ok && phys == (if sector < vol.g.dirBlocks then sector + vol.g.dirStart else 0)
        && mapped == if sector < vol.g.dirBlocks then 1 else 0
      ensures status != Ok || (phys == 0 && !(vol.g.ft != Fat32 && isRoot)) ==> phys == 0 && mapped == 0
      ensures !(vol.g.ft != Fat32 && isRoot) ==>
        var k := sector / vol.g.secPerClus;
        var last := LastBlock(sector, create);
        if sector >= last || iStart == 0 then status == Ok && phys == 0
        else if k >= |chain| then status == IoError
        else
          && status == Ok && phys == BlockAt(sector) && phys >= vol.g.dataStart
          && phys == (chain[k] - 2) * vol.g.secPerClus + sector % vol.g.secPerClus + vol.g.dataStart
          && mapped == Min(vol.g.secPerClus - sector % vol.g.secPerClus, last - sector) && mapped >= 1
    {
      hide WalkIs;
      status, phys, mapped := Ok, 0, 0;
      if vol.g.ft != Fat32 && isRoot {
        if sector < vol.g.dirBlocks {
          phys, mapped := sector + vol.g.dirStart, 1;
        }
        return;
      }
      var lastBlock := LastBlock(sector, create);
      if sector >= lastBlock {
        return;
      }
      var k, offset := sector / vol.g.secPerClus, sector % vol.g.secPerClus;
      DivSplit(sector, vol.g.secPerClus);
      if iStart == 0 {
        return;
      }
      WalkChain(vol.fat, chain, Limit(), k);
      var memory: bool := *;
      var r := GetCluster(k, memory);
      if !r.Found? {
        return IoError, 0, 0;
      }
      assert IsCluster(vol.fat, chain[k]);
      ClusterBlockInjective(vol.g, r.d, offset, r.d, offset);
      phys := ClusterBlock(vol.g, r.d) + offset;
      mapped := Min(vol.g.secPerClus - offset, lastBlock - sector);
    }

    /** Allocate on behalf of this inode; its own chain and cache do not notice. */
    method TakeClusters(nr: nat) returns (status: Status, cl: seq<int>)
      requires Valid() && 1 <= nr <= MAX_BUF_PER_PAGE / 2
      modifies vol`held, vol`fat, vol`stale, vol`prevFree, vol`freeClusters, vol`freeClusValid, vol.disk
      ensures Valid() && vol.held == old(vol.held) && vol.stale <= old(vol.stale)
      ensures status == if old(vol.NoRoom(nr)) then NoSpace else Ok
      ensures status == NoSpace ==> vol.fat == old(vol.fat) && old(vol.Taking(nr)) == []
      ensures vol.Info() == old(vol.InfoAfter(nr))
      ensures status == Ok ==>
        && |cl| == nr && cl == old(vol.Taking(nr))
        && Linked(old(vol.fat), vol.fat, cl) && Distinct(cl) && IsChain(vol.fat, cl) && Disjoint(chain, cl)
        && (forall x :: x in cl ==> IsCluster(old(vol.fat), x) && old(vol.fat)[x] == FAT_ENT_FREE)
        && (|chain| > 0 ==> IsCluster(old(vol.fat), chain[|chain| - 1]))
      ensures old(vol.Exact()) ==> vol.Exact()
    {
      hide MirroredExcept, SameData, CountFree, Scan, Settled, Volume.InfoAfter;
      ghost var fat0 := vol.fat;
      vol.TakingIs(nr);
      status, cl := vol.AllocClusters(nr);
      if status == Ok {
        NothingNew(vol.g, fat0, vol.fat, old(vol.stale), vol.stale);
        ScanIsAllFree(fat0, old(vol.prevFree) + 1);
        TookFree(fat0, vol.fat, chain, cl);
        LinkedCount(fat0, vol.fat, cl);
        CacheKept(fat0, vol.fat, iStart, Limit(), lru);
      }
    }

    /** Next fit gives `nr` clusters in one chain, the file takes them (dir.c `fat_add_entries`
        with its `fat_add_new_entries`). */
    method AddClusters(nr: nat) returns (status: Status)
      requires Valid() && 1 <= nr <= MAX_BUF_PER_PAGE / 2 && |chain| + nr <= Limit() + 1
      modifies this`iStart, this`iBlocks, this`lru, this`nrCaches, this`cacheValidId, this`chain
      modifies vol`held, vol`fat, vol`stale, vol`prevFree, vol`freeClusters, vol`freeClusValid, vol.disk
      ensures Valid() && vol.held == old(vol.held) && vol.stale <= old(vol.stale)
      ensures status == if old(vol.NoRoom(nr)) then NoSpace else Ok
      ensures |old(vol.Taking(nr))| == if status == Ok then nr else 0
      ensures chain == old(chain) + old(vol.Taking(nr)) && iBlocks == old(iBlocks) + |old(vol.Taking(nr))| * Unit()
      ensures vol.Info() == old(vol.InfoAfter(nr))
      ensures status == NoSpace ==> vol.fat == old(vol.fat) && iStart == old(iStart)
      ensures Grown(old(vol.fat), old(chain), vol.fat, chain)
      ensures old(vol.Exact()) ==> vol.Exact()
    {
      hide Volume.Taking, Volume.InfoAfter, Volume.NoRoom;
      ghost var fat0, chain0 := vol.fat, chain;
      var cl;
      status, cl := TakeClusters(nr);
      if status != Ok {
        return;
      }
      ghost var f1 := vol.fat;
      status := ChainAdd(cl[0], nr, cl);
      if status != Ok {
        assert false;  // would free the clusters again; the chain of a valid inode can be walked
      }
      assert chain[|chain0|..] == cl;
      assert GrownTail(fat0, chain0, vol.fat, cl) by {
        assert Linked(fat0, f1, cl) && |f1| == |fat0| && vol.fat == Appended(f1, chain0, cl[0]);
      }
    }

    /** `fat_add_cluster`. */
    method AddCluster() returns (status: Status)
      requires Valid() && |chain| < Limit() + 1
      modifies this`iStart, this`iBlocks, this`lru, this`nrCaches, this`cacheValidId, this`chain
      modifies vol`held, vol`fat, vol`stale, vol`prevFree, vol`freeClusters, vol`freeClusValid, vol.disk
      ensures Valid() && vol.held == old(vol.held) && vol.stale <= old(vol.stale)
      ensures status == if old(vol.NoRoom(1)) then NoSpace else Ok
      ensures |old(vol.Taking(1))| == if status == Ok then 1 else 0
      ensures chain == old(chain) + old(vol.Taking(1)) && iBlocks == old(iBlocks) + |old(vol.Taking(1))| * Unit()
      ensures vol.Info() == old(vol.InfoAfter(1))
      ensures status == NoSpace ==> vol.fat == old(vol.fat) && iStart == old(iStart)
      ensures Grown(old(vol.fat), old(chain), vol.fat, chain)
      ensures old(vol.Exact()) ==> vol.Exact()
    {
      status := AddClusters(1);
    }

    /** The sizes of the inode agree with its chain. */
    ghost predicate Sized()
      reads this
    {
      && |chain| == ClustersFor(mmuPrivate) && iBlocks == |chain| * Unit()
      && iSize <= mmuPrivate
    }

    /** May block `iblock` be mapped as the sizes stand? */
    predicate InSize(iblock: nat, create: bool)
      reads this
    {
      iblock < LastBlock(iblock, create)
    }

    /** Those that begin inside the size of the file and, with `create`, those that begin inside
        what is allocated for it. */
    lemma InSizeIs(iblock: nat, create: bool)
      requires vol.g.blockSize > 0
      ensures InSize(iblock, create)
        <==> iblock * vol.g.blockSize < iSize || (create && iblock * vol.g.blockSize < mmuPrivate)
    {
      CeilDivChar(iSize, vol.g.blockSize, iblock);
      CeilDivChar(mmuPrivate, vol.g.blockSize, iblock);
    }

    /** Where the blocks end that may be mapped with such a block: with the size of the file if it begins
        inside that, else with what is allocated. */
    lemma MappedEnd(iblock: nat, create: bool, b: nat)
      requires vol.g.blockSize > 0 && InSize(iblock, create)
      ensures b < LastBlock(iblock, create)
        <==> b * vol.g.blockSize < (if iblock * vol.g.blockSize < iSize then iSize else mmuPrivate)
    {
      CeilDivChar(iSize, vol.g.blockSize, iblock);
      CeilDivChar(iSize, vol.g.blockSize, b);
      CeilDivChar(mmuPrivate, vol.g.blockSize, b);
    }

    /** The block count is in units of 512 bytes, and counts the bytes of all clusters. */
    lemma BlocksCounted()
      requires vol.g.Valid() && Sized()
      ensures iBlocks * 512 == |chain| * vol.g.ClusterSize()
    {
      var m := vol.g.blockSize / 512;
      assert vol.g.ClusterSize() == 512 * (m * vol.g.secPerClus);
      assert Unit() == m * vol.g.secPerClus;
      assert |chain| * (512 * Unit()) == |chain| * Unit() * 512;
    }

    /** What comes of asking for block `iblock`: a block that is not there can only be made if it is
        the next one, and only if there is a cluster for it. */
    ghost function BlockStatus(iblock: nat, create: bool): Status
      requires vol.g.blockSize > 0 && vol.g.secPerClus > 0
      reads this, vol
    {
      if InSize(iblock, create) || !create then Ok
      else if iblock != mmuPrivate / vol.g.blockSize then IoError
      else if vol.NoRoom(ClustersFirst(iblock, create)) then NoSpace
      else Ok
    }

    /** How many clusters are asked for first: one if the next block of the file begins a cluster. */
    ghost function ClustersFirst(iblock: nat, create: bool): nat
      requires vol.g.blockSize > 0 && vol.g.secPerClus > 0
      reads this, vol
    {
      if !InSize(iblock, create) && create && iblock == mmuPrivate / vol.g.blockSize
         && iblock % vol.g.secPerClus == 0 then 1 else 0
    }

    /** `__fat_get_block`: map block `iblock`; with `create`, grow the file by the next block. */
    method GetBlock(iblock: nat, maxBlocks: nat, create: bool) returns (status: Status, phys: int, blocks: nat)
      requires Valid() && Sized() && !isRoot && maxBlocks >= 1
      requires create ==> iblock * vol.g.blockSize < MAX_BYTES
      modifies this`iStart, this`iBlocks, this`lru, this`nrCaches, this`cacheValidId, this`chain, this`mmuPrivate
      modifies vol`held, vol`fat, vol`stale, vol`prevFree, vol`freeClusters, vol`freeClusValid, vol.disk
      ensures Valid() && Sized() && vol.held == old(vol.held) && vol.stale <= old(vol.stale)
      ensures vol.g.blockSize > 0 && vol.g.secPerClus > 0 && status == old(BlockStatus(iblock, create))
      ensures !create ==> status == Ok
      ensures old(InSize(iblock, create)) ==> status == Ok
      ensures create && !old(InSize(iblock, create)) ==>
        && (status == IoError <==> iblock != old(mmuPrivate) / vol.g.blockSize)
        && (status == NoSpace <==>
              iblock == old(mmuPrivate) / vol.g.blockSize && iblock % vol.g.secPerClus == 0 && old(vol.NoRoom(1)))
      ensures old(InSize(iblock, create)) ==>
        && phys > 0 && chain == old(chain) && mmuPrivate == old(mmuPrivate)
        && 1 <= blocks == Min(
          Min(vol.g.secPerClus - iblock % vol.g.secPerClus, LastBlock(iblock, create) - iblock), maxBlocks)
      ensures !old(InSize(iblock, create)) && !create ==>
        phys == 0 && chain == old(chain) && mmuPrivate == old(mmuPrivate)
      ensures !old(InSize(iblock, create)) && create && status == Ok ==>
        && phys > 0 && |chain| == iblock / vol.g.secPerClus + 1
        && 1 <= blocks == Min(vol.g.secPerClus - iblock % vol.g.secPerClus, maxBlocks)
        && mmuPrivate == old(mmuPrivate) + blocks * vol.g.blockSize
      ensures status == Ok && phys > 0 ==> phys == BlockAt(iblock) && InOrder(iblock, blocks, phys)
      ensures chain == old(chain) + old(vol.Taking(ClustersFirst(iblock, create)))
      ensures vol.Info() == old(vol.InfoAfter(ClustersFirst(iblock, create)))
      ensures Grown(old(vol.fat), old(chain), vol.fat, chain) && (old(vol.Exact()) ==> vol.Exact())
      ensures status != Ok ==> chain == old(chain) && vol.fat == old(vol.fat) && mmuPrivate == old(mmuPrivate)
    {
      hide Volume.Taking, Volume.InfoAfter, Volume.NoRoom;
      vol.NothingTaken();
      MappedHasCluster(vol.g, iblock, iSize, mmuPrivate);
      FloorCeil(mmuPrivate, vol.g.blockSize);
      var mapped;
      status, phys, mapped := Bmap(iblock, create);
      if status != Ok {
        return;
      }
      blocks := maxBlocks;
      if phys != 0 {
        blocks := Min(mapped, maxBlocks);
        BlocksInOrder(iblock, blocks);
        return;
      }
      if !create {
        return;
      }
      if iblock != mmuPrivate / vol.g.blockSize {
        return IoError, 0, 0;
      }
      status, phys, blocks := GrowBy(iblock, maxBlocks);
    }

    /** The cluster of block `iblock` is there: the allocated size grows, and the block is mapped. */
    method MapGrown(iblock: nat, maxBlocks: nat) returns (phys: int, blocks: nat)
      requires Valid() && !isRoot && maxBlocks >= 1
      requires mmuPrivate == iblock * vol.g.blockSize && iSize <= mmuPrivate
      requires |chain| == iblock / vol.g.secPerClus + 1 && iBlocks == |chain| * Unit()
      modifies this`lru, this`nrCaches, this`mmuPrivate, vol`held
      ensures Valid() && Sized() && vol.held == old(vol.held)
      ensures phys > 0 && phys == BlockAt(iblock) && blocks >= 1 && InOrder(iblock, blocks, phys)
      ensures blocks == Min(vol.g.secPerClus - iblock % vol.g.secPerClus, maxBlocks)
      ensures mmuPrivate == old(mmuPrivate) + blocks * vol.g.blockSize
    {
      hide Decodes, MirroredExcept, SameData, Walk, Follow, CacheOk;
      DivSplit(iblock, vol.g.secPerClus);
      var mapped := vol.g.secPerClus - iblock % vol.g.secPerClus;
      blocks := Min(mapped, maxBlocks);
      GrowSize(vol.g, iblock, mmuPrivate, iSize, blocks);
      mmuPrivate := mmuPrivate + blocks * vol.g.blockSize;
      var status;
      status, phys, mapped := Bmap(iblock, true);
      assert status == Ok;
      assert phys != 0;          // BUG_ON
      assert blocks == mapped;   // BUG_ON
      BlocksInOrder(iblock, blocks);
    }

    /** The allocating half of `__fat_get_block`: `iblock` is the next block of the file. */
    method GrowBy(iblock: nat, maxBlocks: nat) returns (status: Status, phys: int, blocks: nat)
      requires Valid() && Sized() && !isRoot && maxBlocks >= 1
      requires iblock * vol.g.blockSize < MAX_BYTES
      requires iblock == mmuPrivate / vol.g.blockSize && iblock >= CeilDiv(mmuPrivate, vol.g.blockSize)
      modifies this`iStart, this`iBlocks, this`lru, this`nrCaches, this`cacheValidId, this`chain, this`mmuPrivate
      modifies vol`held, vol`fat, vol`stale, vol`prevFree, vol`freeClusters, vol`freeClusValid, vol.disk
      ensures Valid() && Sized() && vol.held == old(vol.held) && vol.stale <= old(vol.stale)
      ensures status == if iblock % vol.g.secPerClus == 0 && old(vol.NoRoom(1)) then NoSpace else Ok
      ensures chain == old(chain) + (if iblock % vol.g.secPerClus == 0 then old(vol.Taking(1)) else [])
      ensures vol.Info() == if iblock % vol.g.secPerClus == 0 then old(vol.InfoAfter(1)) else old(vol.Info())
      ensures status == Ok ==>
        && phys > 0 && phys == BlockAt(iblock) && InOrder(iblock, blocks, phys)
        && |chain| == iblock / vol.g.secPerClus + 1
        && 1 <= blocks == Min(vol.g.secPerClus - iblock % vol.g.secPerClus, maxBlocks)
        && mmuPrivate == old(mmuPrivate) + blocks * vol.g.blockSize
      ensures Grown(old(vol.fat), old(chain), vol.fat, chain) && (old(vol.Exact()) ==> vol.Exact())
      ensures status != Ok ==> chain == old(chain) && vol.fat == old(vol.fat) && mmuPrivate == old(mmuPrivate)
    {
      hide Decodes, MirroredExcept, SameData, Walk, Follow, CacheOk;
      hide Volume.Taking, Volume.InfoAfter, Volume.NoRoom;
      GrowRoom(vol.g, iblock, mmuPrivate);
      DivSplit(iblock, vol.g.secPerClus);
      Distribute(|chain|, 1, Unit());
      var offset := iblock % vol.g.secPerClus;
      status, phys, blocks := Ok, 0, 0;
      if offset == 0 {
        status := AddCluster();
        if status != Ok {
          return;
        }
      }
      phys, blocks := MapGrown(iblock, maxBlocks);
    }
  }

  // ----- rounding ---------------------------------------------------------------------

  lemma CeilDivIs(n: nat, d: nat, q: nat)
    requires d > 0 && q > 0 && (q - 1) * d < n <= q * d
    ensures CeilDiv(n, d) == q
  {
    CeilDivChar(n, d, q);
    CeilDivChar(n, d, q - 1);
  }

  /** `n` clusters more of size are `n` clusters more of chain. */
  lemma CeilShift(m: nat, n: nat, c: nat)
    requires c > 0 && n > 0
    ensures CeilDiv(m + n * c, c) == CeilDiv(m, c) + n
  {
    var q := CeilDiv(m, c);
    CeilDivChar(m, c, q);
    Distribute(q, n, c);
    Distribute(q, n - 1, c);
    Distribute(n - 1, 1, c);
    if q > 0 {
      CeilDivChar(m, c, q - 1);
      Distribute(q - 1, n, c);
    }
    CeilDivIs(m + n * c, c, q + n);
  }

  lemma CeilMono(m: nat, n: nat, d: nat)
    requires d > 0
    ensures m <= n ==> CeilDiv(m, d) <= CeilDiv(n, d)
  {
    CeilDivChar(n, d, CeilDiv(n, d));
    CeilDivChar(m, d, CeilDiv(n, d));
  }

  lemma FloorCeil(n: nat, d: nat)
    requires d > 0
    ensures n / d <= CeilDiv(n, d)
  {
    DivSplit(n, d);
    CeilDivChar(n, d, CeilDiv(n, d));
    if n / d > CeilDiv(n, d) {
      Mono(CeilDiv(n, d) + 1, n / d, d);
    }
  }

  lemma Assoc(k: int, b: int, s: int)
    ensures k * (b * s) == k * s * b
  {
  }

  /** A block below the allocated size lies in a cluster the file has. */
  lemma MappedHasCluster(g: Layout, iblock: nat, size: nat, mmu: nat)
    requires g.Valid() && size <= mmu
    ensures iblock < CeilDiv(size, g.blockSize) || iblock < CeilDiv(mmu, g.blockSize)
      ==> iblock / g.secPerClus < CeilDiv(mmu, g.ClusterSize())
    ensures iblock / g.secPerClus >= 0
  {
    DivSplit(iblock, g.secPerClus);
    CeilDivChar(size, g.blockSize, iblock);
    CeilDivChar(mmu, g.blockSize, iblock);
    if iblock * g.blockSize < mmu {
      InCluster(g.blockSize, g.secPerClus, iblock, mmu);
    }
  }

  lemma InCluster(b: nat, s: nat, iblock: nat, mmu: nat)
    requires b > 0 && s > 0 && iblock * b < mmu
    ensures 0 <= iblock / s < CeilDiv(mmu, b * s)
  {
    DivSplit(iblock, s);
    Mono(iblock / s * s, iblock, b);
    Assoc(iblock / s, b, s);
    Mono(1, s, b);
    CeilDivChar(mmu, b * s, iblock / s);
  }

  lemma WholeSize(n: nat, c: nat)
    requires c > 0
    ensures n % c == 0 ==> CeilDiv(n, c) * c == n
  {
    DivSplit(n, c);
    WholeCeil(n / c, c);
  }

  /** How many clusters `n` blocks fill. */
  lemma BlocksInClusters(n: nat, b: nat, s: nat, c: nat)
    requires b > 0 && s > 0 && c == b * s
    ensures c > 0 && n / s * c <= n * b
    ensures CeilDiv(n * b, c) == if n % s == 0 then n / s else n / s + 1
  {
    var k := n / s;
    DivSplit(n, s);
    Mono(1, s, b);
    Assoc(k, b, s);
    Mono(k * s, n, b);
    if n % s == 0 {
      WholeCeil(k, c);
    } else {
      Mono(k * s + 1, n, b);
      Distribute(k * s, 1, b);
      Mono(n, (k + 1) * s, b) by { Distribute(k, 1, s); }
      Assoc(k + 1, b, s);
      CeilDivIs(n * b, c, k + 1);
    }
  }

  lemma WholeCeil(k: nat, c: nat)
    requires c > 0
    ensures CeilDiv(k * c, c) == k
  {
    if k == 0 {
      CeilDivChar(0, c, 0);
    } else {
      Mono(k - 1, k, c);
      Distribute(k - 1, 1, c);
      CeilDivIs(k * c, c, k);
    }
  }

  /** The next block of a file starts at its allocated size, and there is room for its cluster. */
  lemma GrowRoom(g: Layout, iblock: nat, mmu: nat)
    requires g.Valid() && iblock * g.blockSize < MAX_BYTES
    requires iblock == mmu / g.blockSize && iblock >= CeilDiv(mmu, g.blockSize)
    ensures mmu == iblock * g.blockSize && g.ClusterSize() > 0
    ensures iblock / g.secPerClus <= MAX_BYTES / g.ClusterSize()
    ensures CeilDiv(mmu, g.ClusterSize())
      == if iblock % g.secPerClus == 0 then iblock / g.secPerClus else iblock / g.secPerClus + 1
  {
    hide CeilDiv;
    BlockStarts(iblock, mmu, g.blockSize);
    BlocksInClusters(iblock, g.blockSize, g.secPerClus, g.ClusterSize());
    AtMostDiv(iblock / g.secPerClus, g.ClusterSize(), MAX_BYTES);
  }

  lemma BlockStarts(n: nat, mmu: nat, b: nat)
    requires b > 0 && n == mmu / b && n >= CeilDiv(mmu, b)
    ensures mmu == n * b
  {
    DivSplit(mmu, b);
    CeilDivChar(mmu, b, n);
  }

  lemma AtMostDiv(k: nat, c: nat, n: nat)
    requires c > 0 && k * c <= n
    ensures k <= n / c
  {
    DivSplit(n, c);
    if k > n / c {
      Mono(n / c + 1, k, c);
      Distribute(n / c, 1, c);
    }
  }

  /** Growing by `m` blocks within the cluster: the sizes afterwards. */
  lemma GrowSize(g: Layout, iblock: nat, mmu: nat, size: nat, m: nat)
    requires g.Valid() && mmu == iblock * g.blockSize && size <= mmu
    requires 1 <= m <= g.secPerClus - iblock % g.secPerClus
    ensures CeilDiv(mmu + m * g.blockSize, g.ClusterSize()) == iblock / g.secPerClus + 1
    ensures CeilDiv(mmu + m * g.blockSize, g.blockSize) == iblock + m
    ensures CeilDiv(size, g.blockSize) <= iblock
    ensures mmu + m * g.blockSize >= mmu
  {
    CeilDivChar(size, g.blockSize, iblock);
    var k := iblock / g.secPerClus;
    DivSplit(iblock, g.secPerClus);
    Distribute(iblock, m, g.blockSize);
    Mono(1, g.secPerClus, g.blockSize);
    Mono(k * g.secPerClus + 1, iblock + m, g.blockSize);
    Distribute(k * g.secPerClus, 1, g.blockSize);
    Distribute(k, 1, g.secPerClus);
    Mono(iblock + m, (k + 1) * g.secPerClus, g.blockSize);
    Assoc(k, g.blockSize, g.secPerClus);
    Assoc(k + 1, g.blockSize, g.secPerClus);
    CeilDivIs(mmu + m * g.blockSize, g.ClusterSize(), k + 1);
    Distribute(iblock + m - 1, 1, g.blockSize);
    CeilDivIs(mmu + m * g.blockSize, g.blockSize, iblock + m);
  }

  /** The file `c` became `c'` by taking free clusters, linked in order, at its end. */
  ghost predicate Grown(fat: seq<int>, c: seq<int>, fat': seq<int>, c': seq<int>) {
    c <= c' && if |c'| == |c| then fat' == fat else GrownTail(fat, c, fat', c'[|c|..])
  }

  ghost predicate GrownTail(fat: seq<int>, c: seq<int>, fat': seq<int>, cl: seq<int>) {
    && |cl| > 0 && Distinct(cl) && |fat| <= FAT_ENT_EOF
    && (forall x :: x in cl ==> IsCluster(fat, x) && fat[x] == FAT_ENT_FREE)
    && (|c| > 0 ==> IsCluster(fat, c[|c| - 1]))
    && exists f1 :: Linked(fat, f1, cl) && |f1| == |fat| && fat' == Appended(f1, c, cl[0])
  }

  /** Linking free clusters leaves other chains and all links alone. */
  lemma TookFree(fat: seq<int>, fat': seq<int>, c: seq<int>, cl: seq<int>)
    requires |c| > 0 ==> IsChain(fat, c)
    requires Linked(fat, fat', cl) && Distinct(cl) && |cl| > 0 && |fat| <= FAT_ENT_EOF
    requires forall x :: x in cl ==> IsCluster(fat, x) && fat[x] == FAT_ENT_FREE
    ensures |c| > 0 ==> IsChain(fat', c)
    ensures IsChain(fat', cl) && Disjoint(c, cl)
    ensures forall e :: IsCluster(fat, e) && IsLink(fat[e]) ==> fat'[e] == fat[e]
    ensures |c| > 0 ==> IsCluster(fat, c[|c| - 1])
  {
    LinkedIsChain(fat, fat', cl);
    forall x | x in c ensures x !in cl && fat'[x] == fat[x] {
      ChainNotFree(fat, c, x);
    }
    if |c| > 0 {
      ChainFrame(fat, fat', c);
    }
  }

  /** The free counter after freeing `n` clusters. */
  function Increased(free: int, n: int): int {
    if free == -1 then -1 else free + n
  }

  lemma NothingNew(g: Layout, f0: seq<int>, f: seq<int>, stale0: set<nat>, stale: set<nat>)
    requires g.blockSize > 0 && Settled(g, f0, f, stale0, stale, [])
    ensures stale <= stale0
  {
    assert SetOf([]) == {};
  }

  lemma LastHoldsEof(fat: seq<int>, c: seq<int>)
    requires IsChain(fat, c)
    ensures IsCluster(fat, c[|c| - 1]) && fat[c[|c| - 1]] == FAT_ENT_EOF
  {
    assert fat[c[|c| - 1]] == Link(c, |c| - 1);
  }

  lemma LastNotZero(fat: seq<int>, start: int, c: seq<int>)
    requires FileChain(fat, start, c)
    ensures LastOr(c, 0) == 0 <==> start == 0
    ensures start == 0 ==> |c| == 0
  {
    if start != 0 {
      assert IsCluster(fat, c[|c| - 1]) && IsCluster(fat, c[0]);
    }
  }

  lemma LimitSmall(g: Layout)
    requires g.Valid()
    ensures g.ClusterSize() >= 512 && MAX_BYTES / g.ClusterSize() < 0x80_0000
  {
    Mono(1, g.secPerClus, g.blockSize);
    var c := g.ClusterSize();
    var q := MAX_BYTES / c;
    DivSplit(MAX_BYTES, c);
    Mono(512, c, q);
  }

  lemma HeldStep(before: multiset<nat>, h: multiset<nat>, b: seq<nat>, h': multiset<nat>, b': seq<nat>)
    requires h == before + multiset(b) && h' + multiset(b) == h + multiset(b')
    ensures h' == before + multiset(b') && h' - multiset(b') == before
  {
    assert Booked(h, before, [], b);
    BookedCurrent(h, before, [], b, h', b');
  }
}
