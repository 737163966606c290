/** A mounted volume with any number of files open: what all of them together keep, whatever
    sequence of operations is run on them. */
module FatFileSystem {
  import opened Arithmetic
  import opened EntryCodec
  import opened FatChain
  import opened Layout
  import opened ChainWalk
  import opened FatVolume
  import opened FatInode
  import opened Ownership

  /** An operation on the file `c` writes its own entries and free ones only. */
  ghost predicate TouchesOnly(fat: seq<int>, fat': seq<int>, c: seq<int>) {
    |fat'| == |fat| && forall e :: IsCluster(fat, e) && e !in c && fat[e] != FAT_ENT_FREE ==> fat'[e] == fat[e]
  }

  /** An inode whose entries are not written stays as good as it was, cache and all. */
  lemma InodeKept(fat: seq<int>, fat': seq<int>, c: seq<int>, start: int, own: seq<int>, limit: nat, lru: seq<Run>)
    requires TouchesOnly(fat, fat', c) && Disjoint(own, c)
    requires FileChain(fat, start, own) && CacheOk(fat, start, limit, lru) && (start == 0 ==> lru == [])
    ensures FileChain(fat', start, own) && CacheOk(fat', start, limit, lru)
  {
    if start != 0 {
      forall x | x in own ensures fat'[x] == fat[x] {
        ChainNotFree(fat, own, x);
      }
      ChainFrame(fat, fat', own);
      forall r | r in lru ensures r.fcluster + r.nrContig < |own| {
        CacheInside(fat, own, limit, lru, r);
      }
      CacheAgree(fat, own, fat', own, |own|, limit, lru);
    }
  }

  lemma GrownTouches(fat: seq<int>, c: seq<int>, fat': seq<int>, c': seq<int>)
    requires Grown(fat, c, fat', c')
    ensures TouchesOnly(fat, fat', c)
  {
    if |c'| > |c| {
      var cl := c'[|c|..];
      var f1 :| Linked(fat, f1, cl) && |f1| == |fat| && fat' == Appended(f1, c, cl[0]);
      assert |c| > 0 ==> c[|c| - 1] in c;
    }
  }

  lemma CutTouches(fat: seq<int>, c: seq<int>, skip: nat)
    requires |c| > 0 ==> IsChain(fat, c)
    requires 0 < skip < |c| ==> IsCluster(fat, c[skip - 1])
    ensures TouchesOnly(fat, CutFrom(fat, c, skip), c)
  {
    if skip < |c| {
      CutFromChain(fat, c, skip);
    }
  }

  /** The chain of every file that has one. */
  ghost function OwnOf(chains: seq<seq<int>>): map<Owner, seq<int>> {
    map i: nat | i < |chains| && |chains[i]| > 0 :: File(i) := chains[i]
  }

  lemma OwnOfHas(chains: seq<seq<int>>, o: Owner)
    ensures o in OwnOf(chains) <==> o.File? && o.id < |chains| && |chains[o.id]| > 0
    ensures o in OwnOf(chains) ==> OwnOf(chains)[o] == chains[o.id]
  {
  }

  lemma OwnOfUpdate(chains: seq<seq<int>>, i: nat, c: seq<int>)
    requires i < |chains|
    ensures ChainOf(System([], 0, OwnOf(chains)), File(i)) == chains[i]
    ensures OwnOf(chains[i := c]) ==
      if |c| > 0 then OwnOf(chains)[File(i) := c] else OwnOf(chains) - {File(i)}
  {
    hide OwnOf;
    OwnOfHas(chains, File(i));
    var m, n := OwnOf(chains[i := c]), OwnOf(chains);
    var r := if |c| > 0 then n[File(i) := c] else n - {File(i)};
    forall o ensures (o in m <==> o in r) && (o in m ==> m[o] == r[o]) {
      OwnOfHas(chains, o);
      OwnOfHas(chains[i := c], o);
    }
  }

  lemma NothingOwned(fat: seq<int>, prevFree: nat, foreign: set<int>)
    requires FAT_START_ENT <= prevFree < |fat| <= FAT_ENT_EOF
    requires forall e :: e in foreign <==> 0 <= e < |fat| && fat[e] != FAT_ENT_FREE
    ensures Owned(System(fat, prevFree, OwnOf([])), foreign)
  {
    assert forall o :: o !in OwnOf([]);
  }

  /** A file that took one free cluster still shares none, and touched nothing else. */
  lemma GrownOwned(fat: seq<int>, prevFree: nat, chains: seq<seq<int>>, foreign: set<int>, i: nat,
      fat': seq<int>, prevFree': nat, c': seq<int>)
    requires Owned(System(fat, prevFree, OwnOf(chains)), foreign) && i < |chains|
    requires Grown(fat, chains[i], fat', c') && FAT_START_ENT <= prevFree' < |fat|
    ensures Owned(System(fat', prevFree', OwnOf(chains[i := c'])), foreign)
    ensures TouchesOnly(fat, fat', chains[i])
  {
    GrownTouches(fat, chains[i], fat', c');
    if |c'| == |chains[i]| {
      assert c' == chains[i];
      assert chains[i := c'] == chains;
    } else {
      var cl := c'[|chains[i]|..];
      var f1 :| Linked(fat, f1, cl) && |f1| == |fat| && fat' == Appended(f1, chains[i], cl[0]);
      assert c' == chains[i] + cl;
      GrownBy(fat, prevFree, chains, foreign, i, f1, prevFree', cl);
    }
  }

  lemma PutRemove<K, V>(m: map<K, V>, k: K, v: V)
    requires k !in m
    ensures m[k := v] - {k} == m
  {
  }

  lemma GrownBy(fat: seq<int>, prevFree: nat, chains: seq<seq<int>>, foreign: set<int>, i: nat,
      f1: seq<int>, prevFree': nat, cl: seq<int>)
    requires Owned(System(fat, prevFree, OwnOf(chains)), foreign) && i < |chains|
    requires Linked(fat, f1, cl) && Distinct(cl) && |cl| > 0 && FAT_START_ENT <= prevFree' < |fat|
    requires forall x :: x in cl ==> IsCluster(fat, x) && fat[x] == FAT_ENT_FREE
    requires |chains[i]| > 0 ==> IsCluster(fat, chains[i][|chains[i]| - 1])
    ensures Owned(System(Appended(f1, chains[i], cl[0]), prevFree', OwnOf(chains[i := chains[i] + cl])), foreign)
  {
    var c := chains[i];
    var s := System(fat, prevFree, OwnOf(chains));
    var s1 := System(f1, prevFree', s.own[Loose(0) := cl]);
    var s2 := System(Appended(f1, c, cl[0]), prevFree', OwnOf(chains[i := c + cl]));
    OwnOfHas(chains, Loose(0));
    TakeKeeps(s, foreign, 0, cl, s1);
    OwnOfUpdate(chains, i, c + cl);
    OwnOfHas(chains, File(i));
    assert ChainOf(s1, File(i)) == c;
    PutRemove(s.own, Loose(0), cl);
    AttachKeeps(s1, foreign, i, 0, s2);
  }

  lemma OwnOfSnocAt(chains: seq<seq<int>>, c: seq<int>, o: Owner)
    ensures o in OwnOf(chains + [c]) <==> o in OwnOf(chains) || (o == File(|chains|) && |c| > 0)
    ensures o in OwnOf(chains + [c]) ==>
      OwnOf(chains + [c])[o] == if o == File(|chains|) then c else OwnOf(chains)[o]
    ensures File(|chains|) !in OwnOf(chains)
  {
    OwnOfHas(chains, File(|chains|));
    OwnOfHas(chains, o);
    OwnOfHas(chains + [c], o);
  }

  lemma OwnOfSnoc(chains: seq<seq<int>>, c: seq<int>)
    ensures OwnOf(chains + [c]) == if |c| > 0 then OwnOf(chains)[File(|chains|) := c] else OwnOf(chains)
    ensures File(|chains|) !in OwnOf(chains)
  {
    OwnOfSnocAt(chains, c, File(|chains|));
    var m, n := OwnOf(chains + [c]), OwnOf(chains);
    SameMap(m, if |c| > 0 then n[File(|chains|) := c] else n) by {
      forall o ensures o in m <==> o in n || (o == File(|chains|) && |c| > 0)
        ensures o in m ==> m[o] == if o == File(|chains|) then c else n[o]
      {
        OwnOfSnocAt(chains, c, o);
      }
    }
  }

  lemma SameMap<K, V>(m: map<K, V>, n: map<K, V>)
    requires forall k :: k in m <==> k in n
    requires forall k :: k in m ==> m[k] == n[k]
    ensures m == n
  {
  }

  /** Clusters change from foreign to owned by a new owner. */
  lemma AdoptOwned(s: System, foreign: set<int>, o: Owner, c: seq<int>)
    requires Owned(s, foreign) && o !in s.own && IsChain(s.fat, c)
    requires forall x :: x in c ==> x in foreign
    ensures Owned(s.(own := s.own[o := c]), foreign - (set x | x in c))
  {
    var own' := s.own[o := c];
    forall p | p in s.own ensures Disjoint(s.own[p], c) && Disjoint(c, s.own[p]) {
      forall x | x in s.own[p] ensures x !in c {
        ClaimedBy(s.own, p, x);
      }
    }
    forall e ensures Claimed(own', e) <==> Claimed(s.own, e) || e in c {
      if e in c {
        ClaimedBy(own', o, e);
      } else if Claimed(s.own, e) {
        var p :| p in s.own && e in s.own[p];
        ClaimedBy(own', p, e);
      }
    }
  }

  /** A file opened anew takes its chain out of the clusters of files not open. */
  lemma OpenOwned(fat: seq<int>, prevFree: nat, chains: seq<seq<int>>, c: seq<int>, foreign: set<int>)
    requires Owned(System(fat, prevFree, OwnOf(chains)), foreign) && (|c| > 0 ==> IsChain(fat, c))
    requires forall x :: x in c ==> x in foreign
    ensures Owned(System(fat, prevFree, OwnOf(chains + [c])), foreign - (set x | x in c))
  {
    OwnOfSnoc(chains, c);
    if |c| > 0 {
      AdoptOwned(System(fat, prevFree, OwnOf(chains)), foreign, File(|chains|), c);
    } else {
      assert foreign - (set x | x in c) == foreign;
    }
  }

  class FileSystem {
    const vol: Volume
    var inodes: seq<Inode>
    ghost var foreign: set<int>  // bad clusters and clusters lost before mounting

    /** Mounted, nothing open: every entry in use is foreign for now. */
    constructor (vol: Volume)
      requires vol.Valid() && vol.stale == {} && vol.held == multiset{}
      ensures Valid() && this.vol == vol && inodes == []
    {
      this.vol := vol;
      inodes := [];
      foreign := set e | 0 <= e < |vol.fat| && vol.fat[e] != FAT_ENT_FREE;
      new;
      NothingOwned(vol.fat, vol.prevFree, foreign);
      assert Chains() == [];
    }

    ghost function Chains(): seq<seq<int>>
      reads this, inodes
    {
      seq(|inodes|, i requires 0 <= i < |inodes| reads this, inodes => inodes[i].chain)
    }

    ghost function View(): System
      reads this, inodes, vol
    {
      System(vol.fat, vol.prevFree, OwnOf(Chains()))
    }

    ghost predicate InodeOk(f: Inode, fat: seq<int>)
      reads f
    {
      f.vol == vol && f.Sound(fat)
    }

    /** No cross-link, no leak, caches that tell the truth, equal copies of the table, and no
        buffer left referenced. */
    ghost predicate Valid()
      reads this, inodes, vol, vol.disk
    {
      && vol.Valid() && vol.stale == {} && vol.held == multiset{}
      && (forall i :: 0 <= i < |inodes| ==> InodeOk(inodes[i], vol.fat))
      && Distinct(inodes)
      && Owned(View(), foreign)
    }

    /** The inodes other than `i` are right about `fat` and have nothing of the chain `c`. */
    ghost predicate Bystanders(i: nat, fat: seq<int>, c: seq<int>)
      reads this, set j | 0 <= j < |inodes| && j != i :: inodes[j]
    {
      forall j :: 0 <= j < |inodes| && j != i ==> InodeOk(inodes[j], fat) && Disjoint(inodes[j].chain, c)
    }

    /** They are right about the table after an operation on the chain `c`. */
    lemma StillOk(i: nat, fat: seq<int>, fat': seq<int>, c: seq<int>)
      requires Bystanders(i, fat, c) && TouchesOnly(fat, fat', c)
      ensures forall j :: 0 <= j < |inodes| && j != i ==> InodeOk(inodes[j], fat')
    {
      forall j | 0 <= j < |inodes| && j != i ensures InodeOk(inodes[j], fat') {
        var f := inodes[j];
        InodeKept(fat, fat', c, f.iStart, f.chain, f.Limit(), f.lru);
      }
    }

    lemma ValidBystanders(i: nat)
      requires Valid() && i < |inodes|
      ensures Bystanders(i, vol.fat, inodes[i].chain)
      ensures forall j :: 0 <= j < |inodes| && j != i ==> inodes[j] != inodes[i]
    {
      forall j | 0 <= j < |inodes| && j != i
        ensures Disjoint(inodes[j].chain, inodes[i].chain) && inodes[j] != inodes[i]
      {
        assert Differ(inodes, i, j) || Differ(inodes, j, i);
        ChainsApart(i, j);
      }
    }

    /** Two (file, sector) pairs never lie on the same block of the volume. */
    lemma NeverShared(i: nat, sector: nat, j: nat, sector': nat)
      requires Valid() && i < |inodes| && j < |inodes| && (i != j || sector != sector')
      requires vol.g.secPerClus > 0
      requires 0 <= sector / vol.g.secPerClus < |inodes[i].chain| && inodes[i].vol == vol
      requires 0 <= sector' / vol.g.secPerClus < |inodes[j].chain| && inodes[j].vol == vol
      ensures inodes[i].BlockAt(sector) != inodes[j].BlockAt(sector')
    {
      OwnOfHas(Chains(), File(i));
      OwnOfHas(Chains(), File(j));
      BlocksApart(View(), foreign, vol.g, File(i), sector, File(j), sector');
    }

    lemma ChainsApart(i: nat, j: nat)
      requires i < |inodes| && j < |inodes| && i != j && Owned(View(), foreign)
      ensures Disjoint(inodes[j].chain, inodes[i].chain)
    {
      if |inodes[j].chain| > 0 && |inodes[i].chain| > 0 {
        assert File(j) in OwnOf(Chains()) && File(i) in OwnOf(Chains());
      }
    }

    /** What an operation on inode `i` has to show for everything to be in order again. */
    lemma Regained(i: nat, chains: seq<seq<int>>, fat: seq<int>)
      requires vol.Valid() && vol.stale == {} && vol.held == multiset{} && i < |inodes| == |chains|
      requires Distinct(inodes)
      requires Bystanders(i, fat, chains[i]) && InodeOk(inodes[i], vol.fat)
      requires TouchesOnly(fat, vol.fat, chains[i])
      requires Chains() == chains[i := inodes[i].chain]
      requires Owned(System(vol.fat, vol.prevFree, OwnOf(chains[i := inodes[i].chain])), foreign)
      ensures Valid()
    {
      StillOk(i, fat, vol.fat, chains[i]);
    }

    lemma GrownRegained(i: nat, chains: seq<seq<int>>, fat: seq<int>, prevFree: nat)
      requires vol.Valid() && vol.stale == {} && vol.held == multiset{} && i < |inodes| == |chains|
      requires Distinct(inodes)
      requires Bystanders(i, fat, chains[i]) && InodeOk(inodes[i], vol.fat)
      requires forall j :: 0 <= j < |inodes| && j != i ==> inodes[j].chain == chains[j]
      requires Owned(System(fat, prevFree, OwnOf(chains)), foreign)
      requires Grown(fat, chains[i], vol.fat, inodes[i].chain)
      ensures Valid() && Chains() == chains[i := inodes[i].chain]
    {
      hide CacheOk, Owned, IsChain, Distinct;
      GrownOwned(fat, prevFree, chains, foreign, i, vol.fat, vol.prevFree, inodes[i].chain);
      assert Chains() == chains[i := inodes[i].chain];
      Regained(i, chains, fat);
    }

    /** Write one block of file `i` (`__fat_get_block` with `create`). */
    method WriteBlock(i: nat, iblock: nat, maxBlocks: nat) returns (status: Status, phys: int, blocks: nat)
      requires Valid() && i < |inodes| && inodes[i].Sized() && !inodes[i].isRoot && maxBlocks >= 1
      requires iblock * vol.g.blockSize < MAX_BYTES
      modifies inodes[i], vol, vol.disk
      ensures Valid() && inodes == old(inodes) && inodes[i].Sized()
      ensures Chains() == old(Chains())[i := inodes[i].chain]
      ensures vol.g.blockSize > 0 && vol.g.secPerClus > 0 && inodes[i].vol == vol
      ensures status == old(inodes[i].BlockStatus(iblock, true))
      ensures status == Ok ==> phys > 0 && phys == inodes[i].BlockAt(iblock) && 1 <= blocks <= maxBlocks
      ensures status == Ok ==> inodes[i].InOrder(iblock, blocks, phys)
      ensures inodes[i].iSize == old(inodes[i].iSize)
      ensures inodes[i].chain == old(inodes[i].chain) + old(vol.Taking(inodes[i].ClustersFirst(iblock, true)))
      ensures vol.Info() == old(vol.InfoAfter(inodes[i].ClustersFirst(iblock, true)))
      ensures status == Ok && !old(inodes[i].InSize(iblock, true)) ==>
        && |inodes[i].chain| == iblock / vol.g.secPerClus + 1
        && inodes[i].mmuPrivate == old(inodes[i].mmuPrivate) + blocks * vol.g.blockSize
      ensures status != Ok || old(inodes[i].InSize(iblock, true)) ==>
        Chains() == old(Chains()) && vol.fat == old(vol.fat) && inodes[i].mmuPrivate == old(inodes[i].mmuPrivate)
      ensures Grown(old(vol.fat), old(inodes[i].chain), vol.fat, inodes[i].chain)
      ensures vol.data == old(vol.data) && (old(vol.Exact()) ==> vol.Exact())
    {
      ghost var fat, prevFree, chains := vol.fat, vol.prevFree, Chains();
      ValidBystanders(i);
      status, phys, blocks := inodes[i].GetBlock(iblock, maxBlocks, true);
      GrownRegained(i, chains, fat, prevFree);
    }

    /** Give directory `i` `nr` more clusters; a size of whole clusters stays right. */
    method Extend(i: nat, nr: nat) returns (status: Status)
      requires Valid() && i < |inodes| && 1 <= nr <= MAX_BUF_PER_PAGE / 2
      requires inodes[i].vol == vol && vol.g.ClusterSize() > 0 && |inodes[i].chain| + nr <= inodes[i].Limit() + 1
      modifies inodes[i], vol, vol.disk
      ensures Valid() && inodes == old(inodes)
      ensures status == if old(vol.NoRoom(nr)) then NoSpace else Ok
      ensures Chains() == old(Chains())[i := inodes[i].chain]
      ensures |inodes[i].chain| == |old(inodes[i].chain)| + (if status == Ok then nr else 0)
      ensures inodes[i].chain == old(inodes[i].chain) + old(vol.Taking(nr)) && vol.Info() == old(vol.InfoAfter(nr))
      ensures old(inodes[i].Sized()) && old(inodes[i].iSize) % vol.g.ClusterSize() == 0 ==>
        && inodes[i].Sized()
        && inodes[i].iSize == old(inodes[i].iSize) + (if status == Ok then nr else 0) * vol.g.ClusterSize()
      ensures Grown(old(vol.fat), old(inodes[i].chain), vol.fat, inodes[i].chain)
      ensures vol.data == old(vol.data) && (old(vol.Exact()) ==> vol.Exact())
    {
      ghost var fat, prevFree, chains := vol.fat, vol.prevFree, Chains();
      ValidBystanders(i);
      status := inodes[i].GrowDirectory(nr);
      GrownRegained(i, chains, fat, prevFree);
    }

    /** Look up the block of sector `sector` of file `i`: the answer does not depend on what the
        cache remembers. */
    method MapBlock(i: nat, sector: nat) returns (status: Status, phys: int)
      requires Valid() && i < |inodes| && inodes[i].Sized() && (inodes[i].isRoot ==> vol.g.ft == Fat32)
      modifies inodes[i], vol`held
      ensures Valid() && inodes == old(inodes) && inodes[i].Sized() && Chains() == old(Chains())
      ensures inodes[i].iSize == old(inodes[i].iSize) && inodes[i].chain == old(inodes[i].chain)
      ensures inodes[i].mmuPrivate == old(inodes[i].mmuPrivate)
      ensures vol.fat == old(vol.fat) && status == Ok && vol.g.secPerClus > 0
      ensures phys == if sector >= inodes[i].LastBlock(sector, false) then 0 else inodes[i].BlockAt(sector)
    {
      ghost var fat, chains := vol.fat, Chains();
      ValidBystanders(i);
      MappedHasCluster(vol.g, sector, inodes[i].iSize, inodes[i].mmuPrivate);
      var mapped;
      status, phys, mapped := inodes[i].Bmap(sector, false);
      assert Chains() == chains;
      assert chains[i := inodes[i].chain] == chains;
      Regained(i, chains, fat);
    }

    /** Write bytes outside the tables. */
    method WriteData(at: nat, b: seq<byte>)
      requires Valid() && TablesEnd(vol.g) <= at && at + |b| <= vol.disk.Length
      modifies vol`data, vol.disk
      ensures Valid() && vol.disk[..] == Overwritten(old(vol.disk[..]), at, b)
    {
      hide Decodes, MirroredExcept, SameData, Owned;
      vol.WriteData(at, b);
    }

    /** Open a file found on the volume: its clusters are no longer foreign. */
    method Open(f: Inode)
      requires Valid() && f.vol == vol && f !in inodes && f.Valid()
      requires forall x :: x in f.chain ==> x in foreign
      modifies this
      ensures Valid() && inodes == old(inodes) + [f]
      ensures foreign == old(foreign) - (set x | x in f.chain)
    {
      hide Decodes, MirroredExcept, SameData, CacheOk, Owned;
      ghost var chains, foreign0, l := Chains(), foreign, inodes;
      foreign := foreign - (set x | x in f.chain);
      inodes := inodes + [f];
      assert Chains() == chains + [f.chain];
      OpenOwned(vol.fat, vol.prevFree, chains, f.chain, foreign0);
      DistinctSnoc(l, f);
    }

    /** Cut file `i` to `size` bytes (`fat_truncate_blocks` after the size is set). */
    method Truncate(i: nat, size: nat)
      requires Valid() && i < |inodes| && inodes[i].Sized() && inodes[i].iSize <= size
      modifies inodes[i], vol, vol.disk
      ensures Valid() && inodes == old(inodes) && inodes[i].Sized()
      ensures Chains() == old(Chains())[i := inodes[i].chain]
      ensures inodes[i].chain == old(inodes[i].chain)[..Min(inodes[i].ClustersFor(size), |old(inodes[i].chain)|)]
      ensures var nr := inodes[i].ClustersFor(size);
        && (0 < nr < |old(inodes[i].chain)| ==> IsCluster(old(vol.fat), old(inodes[i].chain)[nr - 1]))
        && vol.fat == CutFrom(old(vol.fat), old(inodes[i].chain), nr) && vol.data == old(vol.data)
      ensures inodes[i].iSize == old(inodes[i].iSize) && inodes[i].mmuPrivate == Min(size, old(inodes[i].mmuPrivate))
      ensures vol.freeClusters == Increased(old(vol.freeClusters), |old(inodes[i].chain)| - |inodes[i].chain|)
      ensures vol.prevFree == old(vol.prevFree) && (old(vol.Exact()) ==> vol.Exact())
    {
      hide Decodes, MirroredExcept, Owned;
      ghost var fat, prevFree, chains := vol.fat, vol.prevFree, Chains();
      ValidBystanders(i);
      inodes[i].TruncateBlocks(size);
      ghost var nr := inodes[i].ClustersFor(size);
      CutTouches(fat, chains[i], nr);
      CutOwned(fat, prevFree, chains, foreign, i, nr);
      assert Chains() == chains[i := inodes[i].chain];
      Regained(i, chains, fat);
    }

    /** The size of file `i` becomes one that its clusters hold, as after a write; nothing else changes. */
    method SetSize(i: nat, size: nat)
      requires Valid() && i < |inodes| && inodes[i].Sized() && size <= inodes[i].mmuPrivate
      modifies inodes[i]
      ensures Valid() && inodes[i].Sized() && inodes[i].iSize == size && Chains() == old(Chains())
      ensures inodes[i].chain == old(inodes[i].chain) && inodes[i].mmuPrivate == old(inodes[i].mmuPrivate)
      ensures |inodes[i].chain| > 0 ==> IsChain(vol.fat, inodes[i].chain)
    {
      hide Decodes, MirroredExcept, SameData, Owned, OwnOf;
      ghost var chains := Chains();
      ValidBystanders(i);
      inodes[i].iSize := size;
      assert Chains() == chains;
    }

    /** `fat_setattr` with a size no larger than what is allocated: the size is set and the clusters behind
        it are freed. */
    method Shrink(i: nat, size: nat)
      requires Valid() && i < |inodes| && inodes[i].Sized() && size <= inodes[i].mmuPrivate
      modifies inodes[i], vol, vol.disk
      ensures Valid() && inodes == old(inodes) && inodes[i].Sized()
      ensures inodes[i].iSize == size && inodes[i].mmuPrivate == size
      ensures var nr, c := inodes[i].ClustersFor(size), old(inodes[i].chain);
        && nr <= |c| && inodes[i].chain == c[..nr] && Chains() == old(Chains())[i := c[..nr]]
        && |vol.fat| == |old(vol.fat)| && vol.data == old(vol.data)
        && (forall x :: x in c[nr..] ==> IsCluster(vol.fat, x) && vol.fat[x] == FAT_ENT_FREE)
        && (nr > 0 ==> IsChain(vol.fat, c[..nr]))
        && (forall x :: 0 <= x < |vol.fat| && x !in c ==> vol.fat[x] == old(vol.fat)[x])
        && vol.freeClusters == Increased(old(vol.freeClusters), |c| - nr)
      ensures vol.prevFree == old(vol.prevFree) && (old(vol.Exact()) ==> vol.Exact())
    {
      hide Valid, Decodes, MirroredExcept, SameData, Owned, OwnOf, CutFrom;
      ghost var fat, c := vol.fat, inodes[i].chain;
      SetSize(i, size);
      Truncate(i, size);
      CutParts(fat, c, vol.fat, inodes[i].ClustersFor(size));
    }

    /** `fat_evict_inode` of a file that no name is left for: all its clusters are freed. */
    method Evict(i: nat)
      requires Valid() && i < |inodes| && inodes[i].Sized()
      modifies inodes[i], vol, vol.disk
      ensures Valid() && inodes == old(inodes) && inodes[i].Sized() && inodes[i].chain == []
      ensures inodes[i].iSize == 0 && inodes[i].mmuPrivate == 0
      ensures Chains() == old(Chains())[i := []]
      ensures |vol.fat| == |old(vol.fat)| && vol.data == old(vol.data)
      ensures forall x :: x in old(inodes[i].chain) ==> IsCluster(vol.fat, x) && vol.fat[x] == FAT_ENT_FREE
      ensures forall x :: 0 <= x < |vol.fat| && x !in old(inodes[i].chain) ==> vol.fat[x] == old(vol.fat)[x]
      ensures vol.freeClusters == Increased(old(vol.freeClusters), |old(inodes[i].chain)|)
      ensures vol.prevFree == old(vol.prevFree) && (old(vol.Exact()) ==> vol.Exact())
    {
      hide Valid, Decodes, MirroredExcept, SameData, Owned, OwnOf;
      ghost var c := inodes[i].chain;
      Shrink(i, 0);
      NoClusters(inodes[i].vol.g.ClusterSize());
      assert c[..0] == [] && c[0..] == c;
    }
  }

  lemma NoClusters(size: nat)
    ensures CeilDiv(0, size) == 0
  {
    if size > 0 {
      CeilDivChar(0, size, 0);
    }
  }

  lemma CutParts(fat: seq<int>, c: seq<int>, fat': seq<int>, nr: nat)
    requires nr <= |c| && (|c| > 0 ==> IsChain(fat, c))
    requires (0 < nr < |c| ==> IsCluster(fat, c[nr - 1])) && fat' == CutFrom(fat, c, nr)
    ensures |fat'| == |fat| && (nr > 0 ==> IsChain(fat', c[..nr]))
    ensures forall x :: x in c[nr..] ==> IsCluster(fat', x) && fat'[x] == FAT_ENT_FREE
    ensures forall x :: 0 <= x < |fat'| && x !in c ==> fat'[x] == fat[x]
  {
    if nr < |c| {
      CutFromChain(fat, c, nr);
    } else {
      assert c[..nr] == c;
    }
  }

  /** A file that lost its tail shares nothing either, and the tail is free. */
  lemma CutOwned(fat: seq<int>, prevFree: nat, chains: seq<seq<int>>, foreign: set<int>, i: nat, nr: nat)
    requires Owned(System(fat, prevFree, OwnOf(chains)), foreign) && i < |chains|
    requires 0 < nr < |chains[i]| ==> IsCluster(fat, chains[i][nr - 1])
    ensures var c' := if nr < |chains[i]| then chains[i][..nr] else chains[i];
      Owned(System(CutFrom(fat, chains[i], nr), prevFree, OwnOf(chains[i := c'])), foreign)
  {
    hide Owned, OwnOf, IsChain, Cleared;
    var c := chains[i];
    var c' := if nr < |c| then c[..nr] else c;
    OwnOfUpdate(chains, i, c');
    OwnOfUpdate(chains, i, c);
    var s := System(fat, prevFree, OwnOf(chains));
    assert ChainOf(s, File(i)) == c;
    if nr >= |c| {
      assert chains[i := c'] == chains;
    } else {
      TruncateKeeps(s, foreign, i, nr, System(CutFrom(fat, c, nr), prevFree, OwnOf(chains[i := c'])));
    }
  }
}
