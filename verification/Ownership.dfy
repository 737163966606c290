/** Who owns which cluster, over any run of the operations on any number of files. A step is
    what the methods of Volume and Inode do to the table, told with the functions their
    contracts use: `Scan` and `Linked` for allocating, `Appended` for attaching, `CutFrom` for
    truncating and `FreeWalk` for freeing. */
module Ownership {
  import opened Arithmetic
  import opened EntryCodec
  import opened FatChain
  import opened Layout

  /** A chain belongs to a file, or is allocated and not attached to one yet. */
  datatype Owner = File(id: nat) | Loose(id: nat)

  /** The table, where the next scan starts, and the chain of every owner that has one. */
  datatype System = System(fat: seq<int>, prevFree: nat, own: map<Owner, seq<int>>)

  function ChainOf(s: System, o: Owner): seq<int> {
    if o in s.own then s.own[o] else []
  }

  ghost predicate Claimed(own: map<Owner, seq<int>>, e: int) {
    exists o :: o in own && e in own[o]
  }

  /** Every chain is well formed, no two share a cluster, and the entries in use are exactly
      those of the chains and the foreign ones (bad clusters and clusters lost before mounting):
      no cross-link, no leak. */
  ghost predicate Owned(s: System, foreign: set<int>) {
    && FAT_START_ENT <= s.prevFree < |s.fat| <= FAT_ENT_EOF
    && (forall o :: o in s.own ==> IsChain(s.fat, s.own[o]))
    && (forall o, p :: o in s.own && p in s.own && o != p ==> Disjoint(s.own[o], s.own[p]))
    && (forall e :: IsCluster(s.fat, e) ==>
          (s.fat[e] != FAT_ENT_FREE <==> e in foreign || Claimed(s.own, e)))
    && (forall e :: e in foreign ==> !Claimed(s.own, e))
  }

  datatype Op =
    | Alloc(id: nat, nr: nat)      // fat_alloc_clusters
    | Attach(f: nat, id: nat)      // fat_chain_add
    | FreeLoose(id: nat)           // fat_free_clusters on a chain not attached
    | Truncate(f: nat, skip: nat)  // fat_free

  ghost predicate Step(s: System, op: Op, s': System)
    requires FAT_START_ENT <= s.prevFree < |s.fat|
  {
    match op
    case Alloc(id, nr) =>
      var scan := Scan(s.fat, s.prevFree + 1);
      if nr == 0 || Loose(id) in s.own then false
      else if |scan| < nr then s'.fat == s.fat && s'.own == s.own && FAT_START_ENT <= s'.prevFree < |s.fat|
      else
        && Linked(s.fat, s'.fat, scan[..nr]) && s'.prevFree == scan[nr - 1]
        && s'.own == s.own[Loose(id) := scan[..nr]]
    case Attach(f, id) =>
      && Loose(id) in s.own
      && var c := ChainOf(s, File(f));
      var cl := s.own[Loose(id)];
      && |cl| > 0 && (|c| > 0 ==> IsCluster(s.fat, c[|c| - 1]))
      && s'.fat == Appended(s.fat, c, cl[0]) && s'.prevFree == s.prevFree
      && s'.own == (s.own - {Loose(id)})[File(f) := c + cl]
    case FreeLoose(id) =>
      && Loose(id) in s.own && |s.own[Loose(id)]| > 0
      && s'.fat == FreeWalk(s.fat, s.own[Loose(id)][0]).fat && s'.prevFree == s.prevFree
      && s'.own == s.own - {Loose(id)}
    case Truncate(f, skip) =>
      var c := ChainOf(s, File(f));
      && (0 < skip < |c| ==> IsCluster(s.fat, c[skip - 1]))
      && s'.fat == CutFrom(s.fat, c, skip) && s'.prevFree == s.prevFree
      && s'.own == (if skip >= |c| then s.own else if skip == 0 then s.own - {File(f)} else s.own[File(f) := c[..skip]])
  }

  // ----- every step keeps ownership ---------------------------------------------------

  lemma ClaimedBy(own: map<Owner, seq<int>>, o: Owner, e: int)
    requires o in own && e in own[o]
    ensures Claimed(own, e)
  {
  }

  /** Linking free clusters into a chain of a new owner. */
  lemma TakeKeeps(s: System, foreign: set<int>, id: nat, cl: seq<int>, s': System)
    requires Owned(s, foreign) && Loose(id) !in s.own
    requires Linked(s.fat, s'.fat, cl) && Distinct(cl) && |cl| > 0
    requires forall x :: x in cl ==> IsCluster(s.fat, x) && s.fat[x] == FAT_ENT_FREE
    requires FAT_START_ENT <= s'.prevFree < |s.fat| && s'.own == s.own[Loose(id) := cl]
    ensures Owned(s', foreign)
  {
    LinkedIsChain(s.fat, s'.fat, cl);
    forall o | o in s.own
      ensures IsChain(s'.fat, s.own[o]) && Disjoint(s.own[o], cl) && Disjoint(cl, s.own[o])
    {
      forall x | x in s.own[o] ensures x !in cl && s'.fat[x] == s.fat[x] {
        ChainNotFree(s.fat, s.own[o], x);
      }
      ChainFrame(s.fat, s'.fat, s.own[o]);
    }
    forall e ensures Claimed(s'.own, e) <==> Claimed(s.own, e) || e in cl {
      if e in cl {
        ClaimedBy(s'.own, Loose(id), e);
      } else if Claimed(s.own, e) {
        var o :| o in s.own && e in s.own[o];
        ClaimedBy(s'.own, o, e);
      }
    }
    forall e | IsCluster(s'.fat, e) && e in cl ensures s'.fat[e] != FAT_ENT_FREE {
      ChainNotFree(s'.fat, cl, e);
    }
  }

  lemma AllocKeeps(s: System, foreign: set<int>, id: nat, nr: nat, s': System)
    requires Owned(s, foreign) && Step(s, Alloc(id, nr), s')
    ensures Owned(s', foreign)
  {
    hide Distinct, Scan;
    var scan := Scan(s.fat, s.prevFree + 1);
    if |scan| >= nr {
      var cl := scan[..nr];
      ScanIsAllFree(s.fat, s.prevFree + 1);
      DistinctSlice(scan, 0, nr);
      assert cl == scan[0..nr];
      assert forall x :: x in cl ==> x in scan;
      TakeKeeps(s, foreign, id, cl, s');
    }
  }

  lemma AttachClaims(s: System, f: nat, id: nat, s': System, e: int)
    requires FAT_START_ENT <= s.prevFree < |s.fat| && Step(s, Attach(f, id), s')
    ensures Claimed(s'.own, e) <==> Claimed(s.own, e)
  {
    var c, cl := ChainOf(s, File(f)), s.own[Loose(id)];
    if Claimed(s.own, e) {
      var o :| o in s.own && e in s.own[o];
      ClaimedBy(s'.own, if o == Loose(id) then File(f) else o, e);
    }
    if Claimed(s'.own, e) {
      var o :| o in s'.own && e in s'.own[o];
      ClaimedBy(s.own, if o == File(f) && e in cl then Loose(id) else o, e);
    }
  }

  /** Chains other than the two joined do not notice. */
  lemma AttachOthers(s: System, foreign: set<int>, f: nat, id: nat, s': System, o: Owner)
    requires Owned(s, foreign) && Step(s, Attach(f, id), s')
    requires o in s.own && o != File(f) && o != Loose(id)
    ensures IsChain(s'.fat, s.own[o])
    ensures Disjoint(s.own[o], s'.own[File(f)]) && Disjoint(s'.own[File(f)], s.own[o])
  {
    var c, cl := ChainOf(s, File(f)), s.own[Loose(id)];
    assert Disjoint(s.own[o], cl) && Disjoint(cl, s.own[o]);
    assert Disjoint(s.own[o], c) && Disjoint(c, s.own[o]);
    assert |c| > 0 ==> c[|c| - 1] in c;
    ChainFrame(s.fat, s'.fat, s.own[o]);
  }

  /** The joined chain is a chain of the new table, and the same entries are in use. */
  lemma AttachJoins(s: System, foreign: set<int>, f: nat, id: nat, s': System)
    requires Owned(s, foreign) && Step(s, Attach(f, id), s')
    ensures IsChain(s'.fat, s'.own[File(f)])
    ensures |s'.fat| == |s.fat|
    ensures forall e :: IsCluster(s.fat, e) ==> (s'.fat[e] != FAT_ENT_FREE <==> s.fat[e] != FAT_ENT_FREE)
  {
    var c, cl := ChainOf(s, File(f)), s.own[Loose(id)];
    ChainNotFree(s.fat, cl, cl[0]);
    if |c| > 0 {
      assert Disjoint(c, cl);
      ChainJoin(s.fat, c, cl);
      LastInUse(s.fat, c);
    } else {
      assert c + cl == cl;
    }
  }

  lemma AttachKeeps(s: System, foreign: set<int>, f: nat, id: nat, s': System)
    requires Owned(s, foreign) && Step(s, Attach(f, id), s')
    ensures Owned(s', foreign)
  {
    AttachJoins(s, foreign, f, id, s');
    forall o | o in s'.own ensures IsChain(s'.fat, s'.own[o]) {
      if o != File(f) {
        AttachOthers(s, foreign, f, id, s', o);
      }
    }
    forall o, p | o in s'.own && p in s'.own && o != p ensures Disjoint(s'.own[o], s'.own[p]) {
      if o == File(f) {
        AttachOthers(s, foreign, f, id, s', p);
      } else if p == File(f) {
        AttachOthers(s, foreign, f, id, s', o);
      }
    }
    forall e ensures Claimed(s'.own, e) <==> Claimed(s.own, e) {
      AttachClaims(s, f, id, s', e);
    }
  }

  lemma LastInUse(fat: seq<int>, c: seq<int>)
    requires IsChain(fat, c)
    ensures IsCluster(fat, c[|c| - 1]) && fat[c[|c| - 1]] != FAT_ENT_FREE
  {
    ChainNotFree(fat, c, c[|c| - 1]);
  }

  /** Taking the clusters `gone` from the end of the chain of `o`, leaving `kept`. */
  lemma ReleaseKeeps(s: System, foreign: set<int>, o: Owner, kept: seq<int>, gone: seq<int>, s': System)
    requires Owned(s, foreign) && o in s.own && s.own[o] == kept + gone
    requires |s'.fat| == |s.fat| && s'.prevFree == s.prevFree
    requires |kept| > 0 ==> IsChain(s'.fat, kept)
    requires forall e :: 0 <= e < |s.fat| && e !in s.own[o] ==> s'.fat[e] == s.fat[e]
    requires forall e :: e in gone ==> IsCluster(s.fat, e) && s'.fat[e] == FAT_ENT_FREE
    requires s'.own == if |kept| == 0 then s.own - {o} else s.own[o := kept]
    ensures Owned(s', foreign)
  {
    var c := s.own[o];
    forall p | p in s'.own && p != o ensures IsChain(s'.fat, s.own[p]) {
      assert Disjoint(s.own[p], c);
      forall x | x in s.own[p] ensures s'.fat[x] == s.fat[x] {
        ChainNotFree(s.fat, s.own[p], x);
      }
      ChainFrame(s.fat, s'.fat, s.own[p]);
    }
    assert forall x :: x in c <==> x in kept || x in gone;
    forall p | p in s.own && p != o ensures Disjoint(s.own[p], kept) && Disjoint(kept, s.own[p]) {
      assert Disjoint(s.own[p], c) && Disjoint(c, s.own[p]);
    }
    forall e
      ensures Claimed(s'.own, e) <==> (exists p :: p in s.own && p != o && e in s.own[p]) || e in kept
      ensures Claimed(s'.own, e) ==> Claimed(s.own, e)
    {
      LeftClaimed(s.own, s'.own, o, kept, gone, e);
    }
    forall e | IsCluster(s.fat, e)
      ensures s'.fat[e] != FAT_ENT_FREE <==> e in foreign || Claimed(s'.own, e)
    {
      if e in kept {
        ChainNotFree(s'.fat, kept, e);
      } else if e in gone {
        GoneIsUnclaimed(s, foreign, o, e);
      } else if Claimed(s.own, e) {
        var p :| p in s.own && e in s.own[p];
        assert p != o;
      }
    }
  }

  /** What the owners still claim. */
  lemma LeftClaimed(
    own: map<Owner, seq<int>>, own': map<Owner, seq<int>>, o: Owner, kept: seq<int>, gone: seq<int>, e: int)
    requires o in own && own[o] == kept + gone
    requires own' == if |kept| == 0 then own - {o} else own[o := kept]
    ensures Claimed(own', e) <==> (exists p :: p in own && p != o && e in own[p]) || e in kept
    ensures Claimed(own', e) ==> Claimed(own, e)
  {
    if e in kept {
      ClaimedBy(own', o, e);
      ClaimedBy(own, o, e);
    } else if p :| p in own && p != o && e in own[p] {
      ClaimedBy(own', p, e);
    }
  }

  lemma GoneIsUnclaimed(s: System, foreign: set<int>, o: Owner, e: int)
    requires Owned(s, foreign) && o in s.own && e in s.own[o]
    ensures e !in foreign && forall p :: p in s.own && p != o ==> e !in s.own[p]
  {
    ClaimedBy(s.own, o, e);
    forall p | p in s.own && p != o ensures e !in s.own[p] {
      assert Disjoint(s.own[o], s.own[p]);
    }
  }

  lemma TruncateKeeps(s: System, foreign: set<int>, f: nat, skip: nat, s': System)
    requires Owned(s, foreign) && Step(s, Truncate(f, skip), s')
    ensures Owned(s', foreign)
  {
    hide IsChain, Cleared, Claimed, Distinct;
    var c := ChainOf(s, File(f));
    if skip < |c| {
      CutFromChain(s.fat, c, skip);
      assert c == c[..skip] + c[skip..];
      ReleaseKeeps(s, foreign, File(f), c[..skip], c[skip..], s');
    }
  }

  lemma FreeLooseKeeps(s: System, foreign: set<int>, id: nat, s': System)
    requires Owned(s, foreign) && Step(s, FreeLoose(id), s')
    ensures Owned(s', foreign)
  {
    var cl := s.own[Loose(id)];
    FreeWalkChain(s.fat, cl);
    forall e | e in cl ensures IsCluster(s.fat, e) {
      ChainNotFree(s.fat, cl, e);
    }
    assert cl == [] + cl;
    ReleaseKeeps(s, foreign, Loose(id), [], cl, s');
  }

  /** One step of any kind. */
  lemma StepKeeps(s: System, foreign: set<int>, op: Op, s': System)
    requires Owned(s, foreign) && Step(s, op, s')
    ensures Owned(s', foreign)
  {
    match op
    case Alloc(id, nr) => AllocKeeps(s, foreign, id, nr, s');
    case Attach(f, id) => AttachKeeps(s, foreign, f, id, s');
    case FreeLoose(id) => FreeLooseKeeps(s, foreign, id, s');
    case Truncate(f, skip) => TruncateKeeps(s, foreign, f, skip, s');
  }

  // ----- whole runs --------------------------------------------------------------------

  ghost predicate StepOf(run: seq<System>, ops: seq<Op>, i: nat)
    requires i + 1 < |run| && i < |ops|
  {
    FAT_START_ENT <= run[i].prevFree < |run[i].fat| && Step(run[i], ops[i], run[i + 1])
  }

  ghost predicate IsRun(run: seq<System>, ops: seq<Op>) {
    |run| == |ops| + 1 && forall i :: 0 <= i < |ops| ==> StepOf(run, ops, i)
  }

  /** Over every run, on any number of files, ownership holds in every state. */
  lemma {:induction false} RunKeeps(run: seq<System>, ops: seq<Op>, foreign: set<int>, k: nat)
    requires IsRun(run, ops) && k < |run| && Owned(run[0], foreign)
    ensures Owned(run[k], foreign)
  {
    if k > 0 {
      RunKeeps(run, ops, foreign, k - 1);
      assert StepOf(run, ops, k - 1);
      StepKeeps(run[k - 1], foreign, ops[k - 1], run[k]);
    }
  }

  /** The volume block of sector `sector` of an owner's chain (`fat_bmap`). */
  function BlockOf(g: Layout, s: System, o: Owner, sector: nat): int
    requires o in s.own && g.secPerClus > 0 && 0 <= sector / g.secPerClus < |s.own[o]|
  {
    ClusterBlock(g, s.own[o][sector / g.secPerClus]) + sector % g.secPerClus
  }

  /** No two (file, sector) pairs are mapped to the same block. */
  lemma BlocksApart(s: System, foreign: set<int>, g: Layout, o: Owner, sector: nat, o': Owner, sector': nat)
    requires Owned(s, foreign) && g.Valid()
    requires o in s.own && 0 <= sector / g.secPerClus < |s.own[o]|
    requires o' in s.own && 0 <= sector' / g.secPerClus < |s.own[o']|
    requires o != o' || sector != sector'
    ensures BlockOf(g, s, o, sector) != BlockOf(g, s, o', sector')
    ensures BlockOf(g, s, o, sector) >= g.dataStart
  {
    var c, c' := s.own[o], s.own[o'];
    var i, i' := sector / g.secPerClus, sector' / g.secPerClus;
    DivSplit(sector, g.secPerClus);
    DivSplit(sector', g.secPerClus);
    assert IsCluster(s.fat, c[i]) && IsCluster(s.fat, c'[i']);
    ClusterBlockInjective(g, c[i], sector % g.secPerClus, c'[i'], sector' % g.secPerClus);
    if o != o' {
      assert c[i] in c && Disjoint(c, c');
    } else if i != i' {
      assert Differ(c, i, i') || Differ(c, i', i);
    }
  }

  /** ... in any state of any run. */
  lemma BlocksNeverShared(run: seq<System>, ops: seq<Op>, foreign: set<int>, k: nat, g: Layout,
      o: Owner, sector: nat, o': Owner, sector': nat)
    requires IsRun(run, ops) && k < |run| && Owned(run[0], foreign) && g.Valid()
    requires o in run[k].own && 0 <= sector / g.secPerClus < |run[k].own[o]|
    requires o' in run[k].own && 0 <= sector' / g.secPerClus < |run[k].own[o']|
    requires o != o' || sector != sector'
    ensures BlockOf(g, run[k], o, sector) != BlockOf(g, run[k], o', sector')
  {
    RunKeeps(run, ops, foreign, k);
    BlocksApart(run[k], foreign, g, o, sector, o', sector');
  }
}
