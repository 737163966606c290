/** A directory on its volume: its slots are the bytes of the blocks its inode's chain maps, and
    the clusters it grows by come from the allocator. */
module VolumeDirectory {
  import opened Arithmetic
  import opened EntryCodec
  import opened FatChain
  import opened Layout
  import opened FatVolume
  import opened FatInode
  import opened FatFileSystem
  import opened DirSlots
  import opened DirRecords
  import opened FatDirectory
  import opened VfatDirectory

  /** The start cluster a directory entry is written with is the one read from it, on every volume:
      16 bits are enough where the table has fewer than 32. */
  lemma StartComesBack(g: Layout, name: seq<byte>, isDir: bool, lcase: byte, t: Times, cluster: nat)
    requires g.Valid() && |name| == MSDOS_NAME && cluster < g.maxCluster
    ensures cluster < 0x1_0000_0000 && GetStart(g.ft == Fat32, ShortEntry(name, isDir, lcase, t, cluster)) == cluster
  {
    hide ShortEntry, GetStart;
    StartRoundTrip(g.ft == Fat32, name, isDir, lcase, t, cluster);
  }

  /** Every cluster of the volume lies on the disk. */
  ghost predicate Spans(g: Layout, size: nat) { ClusterBlock(g, g.maxCluster) * g.blockSize <= size }

  /** Directory `dir` has the geometry of the volume and as many slots as the chain of file `i`. */
  ghost predicate Backs(fs: FileSystem, i: nat, dir: Directory)
    requires fs.vol.g.ClusterSize() > 0
    reads fs, fs.inodes, dir
  {
    && dir.Valid() && i < |fs.inodes| && fs.inodes[i].vol == fs.vol
    && fs.vol.g.blockSize == 32 * dir.perBlock && dir.secPerClus == fs.vol.g.secPerClus
    && |dir.entries| == |fs.inodes[i].chain| * (dir.secPerClus * dir.perBlock)
    && fs.inodes[i].Sized() && fs.inodes[i].iSize == 32 * |dir.entries|
    && (fs.inodes[i].isRoot ==> fs.vol.g.ft == Fat32)
  }

  /** Block of the volume that holds sector `sector` of a chain, as `Inode.BlockAt`. */
  function ChainBlock(g: Layout, chain: seq<int>, sector: nat): int
    requires g.secPerClus > 0
  {
    var k := sector / g.secPerClus;
    if k < |chain| then ClusterBlock(g, chain[k]) + sector % g.secPerClus else 0
  }

  /** Byte of the volume where slot `p` of the chain starts. */
  function Address(g: Layout, chain: seq<int>, pb: nat, p: nat): int
    requires pb > 0 && g.secPerClus > 0
  {
    ChainBlock(g, chain, p / pb) * g.blockSize + 32 * (p % pb)
  }

  /** The 32 bytes there are the slot. */
  ghost predicate SlotHere(d: seq<byte>, at: int, s: Slot) {
    0 <= at && at + 32 <= |d| && d[at..at + 32] == s
  }

  /** The first `n` slots stand on the volume. */
  ghost predicate OnVolume(d: seq<byte>, g: Layout, chain: seq<int>, pb: nat, es: seq<Slot>, n: nat)
    requires pb > 0 && g.secPerClus > 0
  {
    n <= |es| && forall p: nat :: p < n ==> SlotHere(d, Address(g, chain, pb, p), es[p])
  }

  /** Slot `p` lies in a block of the chain. */
  lemma SlotBlock(p: nat, clusters: nat, spc: nat, pb: nat)
    requires pb > 0 && spc > 0 && p < clusters * (spc * pb)
    ensures 0 <= p / pb && p / pb / spc < clusters
  {
    var s := p / pb;
    DivSplit(p, pb);
    DivSplit(s, spc);
    assert clusters * (spc * pb) == (clusters * spc) * pb;
    if s >= clusters * spc {
      Mono(clusters * spc, s, pb);
    }
    if s / spc >= clusters {
      Mono(clusters, s / spc, spc);
    }
  }

  /** A block of a chain lies behind the tables and on the disk. */
  lemma BlockOnDisk(g: Layout, c: int, s: nat, size: nat)
    requires g.Valid() && Spans(g, size) && FAT_START_ENT <= c < g.maxCluster && s < g.secPerClus
    ensures var b := ClusterBlock(g, c) + s;
            b >= 0 && TablesEnd(g) <= b * g.blockSize && b * g.blockSize + g.blockSize <= size
  {
    var b := ClusterBlock(g, c) + s;
    Mono(0, c - FAT_START_ENT, g.secPerClus);
    Mono(c - FAT_START_ENT + 1, g.maxCluster - FAT_START_ENT, g.secPerClus);
    Distribute(c - FAT_START_ENT, 1, g.secPerClus);
    Mono(g.fatStart + g.fats * g.fatLength, b, g.blockSize);
    Mono(b + 1, ClusterBlock(g, g.maxCluster), g.blockSize);
    Distribute(b, 1, g.blockSize);
  }

  lemma AddressOk(fs: FileSystem, i: nat, dir: Directory, p: nat)
    requires fs.Valid() && Backs(fs, i, dir) && Spans(fs.vol.g, fs.vol.disk.Length) && p < |dir.entries|
    ensures 0 <= p / dir.perBlock / fs.vol.g.secPerClus < |fs.inodes[i].chain|
    ensures var a := Address(fs.vol.g, fs.inodes[i].chain, dir.perBlock, p);
      TablesEnd(fs.vol.g) <= a && a + 32 <= fs.vol.disk.Length
  {
    var f, s := fs.inodes[i], p / dir.perBlock;
    SlotBlock(p, |f.chain|, dir.secPerClus, dir.perBlock);
    DivSplit(s, fs.vol.g.secPerClus);
    DivSplit(p, dir.perBlock);
    assert f.Sound(fs.vol.fat);
    assert IsCluster(fs.vol.fat, f.chain[s / fs.vol.g.secPerClus]);
    BlockOnDisk(fs.vol.g, f.chain[s / fs.vol.g.secPerClus], s % fs.vol.g.secPerClus, fs.vol.disk.Length);
  }

  lemma BlocksDiffer(x: int, y: int, size: nat, a: nat, b: nat)
    requires x != y && a + 32 <= size && b + 32 <= size
    ensures x * size + a + 32 <= y * size + b || y * size + b + 32 <= x * size + a
  {
    if x < y {
      Mono(x + 1, y, size);
    } else {
      Mono(y + 1, x, size);
    }
  }

  lemma BacksSays(fs: FileSystem, i: nat, dir: Directory)
    requires fs.Valid() && Backs(fs, i, dir)
    ensures dir.Valid() && dir.secPerClus * dir.perBlock >= 16 && dir.perBlock > 0
    ensures fs.vol.g.ClusterSize() > 0 && fs.vol.g.secPerClus > 0
    ensures i < |fs.inodes| && fs.inodes[i].vol == fs.vol
    ensures fs.vol.g.blockSize == 32 * dir.perBlock && dir.secPerClus == fs.vol.g.secPerClus
    ensures |dir.entries| == |fs.inodes[i].chain| * (dir.secPerClus * dir.perBlock)
    ensures fs.inodes[i].iSize == 32 * |dir.entries|
    ensures fs.inodes[i].Sized() && (fs.inodes[i].isRoot ==> fs.vol.g.ft == Fat32)
  {
    Mono(1, dir.secPerClus, dir.perBlock);
  }

  lemma AddressIs(f: Inode, g: Layout, pb: nat, p: nat)
    requires f.vol.g == g && g.secPerClus > 0 && pb > 0 && g.blockSize == 32 * pb
    ensures p / pb >= 0 && Address(g, f.chain, pb, p) == f.BlockAt(p / pb) * (32 * pb) + 32 * (p % pb)
  {
  }

  lemma SlotsApart(x: int, y: int, p: nat, q: nat, pb: nat)
    requires pb > 0 && p != q && (x == y <==> p / pb == q / pb)
    ensures var a, b := x * (32 * pb) + 32 * (p % pb), y * (32 * pb) + 32 * (q % pb); a + 32 <= b || b + 32 <= a
  {
    DivSplit(p, pb);
    DivSplit(q, pb);
    if x != y {
      BlocksDiffer(x, y, 32 * pb, 32 * (p % pb), 32 * (q % pb));
    }
  }

  /** Different slots have different bytes. */
  lemma AddressesApart(fs: FileSystem, i: nat, dir: Directory, p: nat, q: nat)
    requires fs.Valid() && Backs(fs, i, dir) && Spans(fs.vol.g, fs.vol.disk.Length)
    requires p < |dir.entries| && q < |dir.entries| && p != q
    ensures var a, b := Address(fs.vol.g, fs.inodes[i].chain, dir.perBlock, p),
                       Address(fs.vol.g, fs.inodes[i].chain, dir.perBlock, q);
      a + 32 <= b || b + 32 <= a
  {
    hide *;
    BacksSays(fs, i, dir);
    AddressOk(fs, i, dir, p);
    AddressOk(fs, i, dir, q);
    var f, pb := fs.inodes[i], dir.perBlock;
    AddressIs(f, fs.vol.g, pb, p);
    AddressIs(f, fs.vol.g, pb, q);
    if p / pb != q / pb {
      fs.NeverShared(i, p / pb, i, q / pb);
    }
    SlotsApart(f.BlockAt(p / pb), f.BlockAt(q / pb), p, q, pb);
  }

  /** The block of slot `p` lies within the directory's size. */
  lemma SlotMapped(p: nat, n: nat, pb: nat)
    requires pb > 0 && p < n
    ensures p / pb < CeilDiv(32 * n, 32 * pb)
  {
    DivSplit(p, pb);
    CeilDivChar(32 * n, 32 * pb, p / pb);
    assert p / pb * (32 * pb) == 32 * (p / pb * pb);
  }

  lemma SlotWritten(d: seq<byte>, at: int, s: Slot, x: int, t: Slot)
    requires 0 <= at && at + 32 <= |d| && (x == at || x + 32 <= at || at + 32 <= x)
    requires if x == at then s == t else SlotHere(d, x, t)
    ensures SlotHere(Overwritten(d, at, s), x, t)
  {
  }

  /** Block `sector` of a chain holds the same bytes. */
  ghost predicate BlockSame(g: Layout, d: seq<byte>, d': seq<byte>, chain: seq<int>, sector: nat)
    requires g.secPerClus > 0
  {
    var at := ChainBlock(g, chain, sector) * g.blockSize;
    |d| == |d'| && forall x :: at <= x < at + g.blockSize && 0 <= x < |d| ==> d'[x] == d[x]
  }

  /** No file but `i` has a byte changed. */
  ghost predicate OthersSame(g: Layout, chains: seq<seq<int>>, i: nat, d: seq<byte>, d': seq<byte>)
    requires g.secPerClus > 0
  {
    forall j: nat, sector: nat ::
      j != i && j < |chains| && InChain(g, chains[j], sector) ==>
        BlockSame(g, d, d', chains[j], sector)
  }

  /** Byte `x` is one of a slot of the directory. */
  ghost predicate SlotByte(g: Layout, chain: seq<int>, pb: nat, n: nat, x: int)
    requires pb > 0 && g.secPerClus > 0
  {
    exists p: nat :: p < n && Address(g, chain, pb, p) <= x < Address(g, chain, pb, p) + 32
  }

  /** No byte but those of the directory's slots differs. */
  ghost predicate OnlySlots(g: Layout, chain: seq<int>, pb: nat, n: nat, d: seq<byte>, d': seq<byte>)
    requires pb > 0 && g.secPerClus > 0
  {
    |d'| == |d| && forall x :: 0 <= x < |d| && !SlotByte(g, chain, pb, n, x) ==> d'[x] == d[x]
  }

  /** No byte but those and the tables'. */
  ghost predicate Elsewhere(g: Layout, chain: seq<int>, pb: nat, n: nat, d: seq<byte>, d': seq<byte>)
    requires pb > 0 && g.secPerClus > 0
  {
    && |d'| == |d|
    && forall x {:trigger KeptAt(g, d, d', x)} ::
         0 <= x < |d| && !SlotByte(g, chain, pb, n, x) ==> KeptAt(g, d, d', x)
  }

  lemma SlotOnly(g: Layout, chain: seq<int>, pb: nat, n: nat, d0: seq<byte>, d: seq<byte>, p: nat, b: seq<byte>)
    requires pb > 0 && g.secPerClus > 0 && OnlySlots(g, chain, pb, n, d0, d) && p < n
    requires |b| == 32 && Address(g, chain, pb, p) >= 0
    ensures OnlySlots(g, chain, pb, n, d0, Overwritten(d, Address(g, chain, pb, p), b))
  {
    hide Address;
  }

  lemma NothingWritten(g: Layout, chain: seq<int>, pb: nat, n: nat, d: seq<byte>)
    requires pb > 0 && g.secPerClus > 0
    ensures OnlySlots(g, chain, pb, n, d, d) && Elsewhere(g, chain, pb, n, d, d)
  {
    forall x | 0 <= x < |d| ensures KeptAt(g, d, d, x) {
    }
  }

  /** Slots written between changes of the tables. */
  lemma ElsewhereBy(
    g: Layout, chain: seq<int>, pb: nat, n: nat, data: seq<byte>, data': seq<byte>,
    d0: seq<byte>, d1: seq<byte>, d2: seq<byte>, d3: seq<byte>)
    requires pb > 0 && g.secPerClus > 0 && SameData(g, data, d0) && SameData(g, data, d1)
    requires OnlySlots(g, chain, pb, n, d1, d2) && SameData(g, data', d2) && SameData(g, data', d3)
    ensures Elsewhere(g, chain, pb, n, d0, d3)
  {
    hide SlotByte;
    forall x | 0 <= x < |d0| && !SlotByte(g, chain, pb, n, x) ensures KeptAt(g, d0, d3, x) {
      assert KeptAt(g, data, d0, x) && KeptAt(g, data, d1, x) && KeptAt(g, data', d2, x) && KeptAt(g, data', d3, x);
    }
  }

  predicate InChain(g: Layout, chain: seq<int>, sector: nat)
    requires g.secPerClus > 0
  {
    0 <= sector / g.secPerClus < |chain|
  }

  lemma WriteElsewhere(fs: FileSystem, i: nat, dir: Directory, p: nat, d0: seq<byte>, d: seq<byte>)
    requires fs.Valid() && Backs(fs, i, dir) && Spans(fs.vol.g, fs.vol.disk.Length)
    requires p < |dir.entries| && |d| == fs.vol.disk.Length && OthersSame(fs.vol.g, fs.Chains(), i, d0, d)
    ensures Address(fs.vol.g, fs.inodes[i].chain, dir.perBlock, p) >= 0
    ensures OthersSame(fs.vol.g, fs.Chains(), i, d0,
      Overwritten(d, Address(fs.vol.g, fs.inodes[i].chain, dir.perBlock, p), dir.entries[p]))
  {
    AddressOk(fs, i, dir, p);
    var g, chains := fs.vol.g, fs.Chains();
    var at := Address(g, fs.inodes[i].chain, dir.perBlock, p);
    var d' := Overwritten(d, at, dir.entries[p]);
    forall j: nat, sector: nat | j != i && j < |chains| && InChain(g, chains[j], sector)
      ensures BlockSame(g, d0, d', chains[j], sector)
    {
      assert BlockSame(g, d0, d, chains[j], sector);
      assert fs.InodeOk(fs.inodes[j], fs.vol.fat);
      fs.NeverShared(i, p / dir.perBlock, j, sector);
      DivSplit(p, dir.perBlock);
      SlotOutside(ChainBlock(g, chains[i], p / dir.perBlock), ChainBlock(g, chains[j], sector),
                  g.blockSize, 32 * (p % dir.perBlock));
    }
  }

  lemma SlotOutside(x: int, y: int, size: nat, a: nat)
    requires x != y && a + 32 <= size
    ensures x * size + a + 32 <= y * size || y * size + size <= x * size + a
  {
    if x < y {
      Mono(x + 1, y, size);
    } else {
      Mono(y + 1, x, size);
    }
  }

  /** Chain and slots have grown together. */
  lemma BacksAgain(fs: FileSystem, i: nat, dir: Directory, clusters: nat, nr: nat, n: nat)
    requires fs.vol.g.ClusterSize() > 0 && dir.Valid()
    requires i < |fs.inodes| && fs.inodes[i].vol == fs.vol && fs.inodes[i].Sized()
    requires fs.vol.g.blockSize == 32 * dir.perBlock && dir.secPerClus == fs.vol.g.secPerClus
    requires fs.inodes[i].isRoot ==> fs.vol.g.ft == Fat32
    requires n == clusters * (dir.secPerClus * dir.perBlock)
    requires |dir.entries| == n + nr * (dir.secPerClus * dir.perBlock)
    requires |fs.inodes[i].chain| == clusters + nr && fs.inodes[i].iSize == 32 * n + nr * fs.vol.g.ClusterSize()
    ensures Backs(fs, i, dir)
  {
    hide Inode.Sized, Directory.Valid;
    var spc, pb := dir.secPerClus, dir.perBlock;
    Distribute(clusters, nr, spc * pb);
    assert fs.vol.g.ClusterSize() == 32 * (spc * pb);
    assert 32 * (nr * (spc * pb)) == nr * (32 * (spc * pb));
  }

  /** The directory's blocks are written: its slots stand on the volume, and no byte of another
      file changes. */
  method WriteSlots(fs: FileSystem, i: nat, dir: Directory)
    requires fs.Valid() && Backs(fs, i, dir) && Spans(fs.vol.g, fs.vol.disk.Length)
    modifies fs.inodes[i], fs.vol`held, fs.vol`data, fs.vol.disk
    ensures fs.Valid() && Backs(fs, i, dir)
    ensures fs.Chains() == old(fs.Chains()) && fs.inodes[i].chain == old(fs.inodes[i].chain)
    ensures OnVolume(fs.vol.disk[..], fs.vol.g, fs.inodes[i].chain, dir.perBlock, dir.entries, |dir.entries|)
    ensures OthersSame(fs.vol.g, fs.Chains(), i, old(fs.vol.disk[..]), fs.vol.disk[..])
    ensures OnlySlots(
      fs.vol.g, fs.inodes[i].chain, dir.perBlock, |dir.entries|, old(fs.vol.disk[..]), fs.vol.disk[..])
    ensures fs.vol.fat == old(fs.vol.fat) && (old(fs.vol.Exact()) ==> fs.vol.Exact())
  {
    hide OnlySlots;
    var p := 0;
    NothingWritten(fs.vol.g, fs.inodes[i].chain, dir.perBlock, |dir.entries|, fs.vol.disk[..]);
    while p < |dir.entries|
      invariant 0 <= p <= |dir.entries| && fs.Valid() && Backs(fs, i, dir) && fs.Chains() == old(fs.Chains())
      invariant fs.inodes[i].chain == old(fs.inodes[i].chain)
      invariant OnVolume(fs.vol.disk[..], fs.vol.g, fs.inodes[i].chain, dir.perBlock, dir.entries, p)
      invariant OthersSame(fs.vol.g, fs.Chains(), i, old(fs.vol.disk[..]), fs.vol.disk[..])
      invariant OnlySlots(
        fs.vol.g, fs.inodes[i].chain, dir.perBlock, |dir.entries|, old(fs.vol.disk[..]), fs.vol.disk[..])
    {
      ghost var d := fs.vol.disk[..];
      WriteSlot(fs, i, dir, p);
      SlotOnly(fs.vol.g, fs.inodes[i].chain, dir.perBlock, |dir.entries|, old(fs.vol.disk[..]), d, p, dir.entries[p]);
      WriteElsewhere(fs, i, dir, p, old(fs.vol.disk[..]), d);
      p := p + 1;
    }
  }

  method WriteSlot(fs: FileSystem, i: nat, dir: Directory, p: nat)
    requires fs.Valid() && Backs(fs, i, dir) && Spans(fs.vol.g, fs.vol.disk.Length) && p < |dir.entries|
    requires OnVolume(fs.vol.disk[..], fs.vol.g, fs.inodes[i].chain, dir.perBlock, dir.entries, p)
    modifies fs.inodes[i], fs.vol`held, fs.vol`data, fs.vol.disk
    ensures fs.Valid() && Backs(fs, i, dir)
    ensures fs.Chains() == old(fs.Chains()) && fs.inodes[i].chain == old(fs.inodes[i].chain)
    ensures OnVolume(fs.vol.disk[..], fs.vol.g, fs.inodes[i].chain, dir.perBlock, dir.entries, p + 1)
    ensures Address(fs.vol.g, fs.inodes[i].chain, dir.perBlock, p) >= 0
    ensures fs.vol.disk[..]
      == Overwritten(old(fs.vol.disk[..]), Address(fs.vol.g, fs.inodes[i].chain, dir.perBlock, p), dir.entries[p])
  {
    hide *;
    BacksSays(fs, i, dir);
    ghost var d := fs.vol.disk[..];
    var at := SlotPlace(fs, i, dir, p);
    fs.WriteData(at, dir.entries[p]);
    StillOnVolume(fs, i, dir, p, d);
  }

  /** `fat_bmap` answers for the block of slot `p`, and the answer is its address. */
  lemma MappedAddress(f: Inode, g: Layout, pb: nat, p: nat, n: nat)
    requires f.vol.g == g && g.secPerClus > 0 && pb > 0 && g.blockSize == 32 * pb && f.iSize == 32 * n && p < n
    ensures 0 <= p / pb < f.LastBlock(p / pb, false)
    ensures Address(g, f.chain, pb, p) == f.BlockAt(p / pb) * g.blockSize + 32 * (p % pb)
  {
    SlotMapped(p, n, pb);
  }

  /** Where the block of slot `p` is, by `fat_bmap`. */
  method SlotPlace(fs: FileSystem, i: nat, dir: Directory, p: nat) returns (at: nat)
    requires fs.Valid() && Backs(fs, i, dir) && Spans(fs.vol.g, fs.vol.disk.Length) && p < |dir.entries|
    modifies fs.inodes[i], fs.vol`held
    ensures fs.Valid() && Backs(fs, i, dir) && fs.Chains() == old(fs.Chains())
    ensures fs.inodes[i].chain == old(fs.inodes[i].chain)
    ensures at == Address(fs.vol.g, fs.inodes[i].chain, dir.perBlock, p)
    ensures TablesEnd(fs.vol.g) <= at && at + 32 <= fs.vol.disk.Length
  {
    hide *;
    BacksSays(fs, i, dir);
    ghost var clusters, n := |fs.inodes[i].chain|, |dir.entries|;
    var status, phys := fs.MapBlock(i, p / dir.perBlock);
    BacksAgain(fs, i, dir, clusters, 0, n);
    AddressOk(fs, i, dir, p);
    MappedAddress(fs.inodes[i], fs.vol.g, dir.perBlock, p, n);
    at := phys * fs.vol.g.blockSize + 32 * (p % dir.perBlock);
  }

  lemma StillOnVolume(fs: FileSystem, i: nat, dir: Directory, p: nat, d: seq<byte>)
    requires fs.Valid() && Backs(fs, i, dir) && Spans(fs.vol.g, fs.vol.disk.Length) && p < |dir.entries|
    requires |d| == fs.vol.disk.Length && OnVolume(d, fs.vol.g, fs.inodes[i].chain, dir.perBlock, dir.entries, p)
    ensures Address(fs.vol.g, fs.inodes[i].chain, dir.perBlock, p) >= 0
    ensures OnVolume(Overwritten(d, Address(fs.vol.g, fs.inodes[i].chain, dir.perBlock, p), dir.entries[p]),
      fs.vol.g, fs.inodes[i].chain, dir.perBlock, dir.entries, p + 1)
  {
    var g, chain, pb, es := fs.vol.g, fs.inodes[i].chain, dir.perBlock, dir.entries;
    var at := Address(g, chain, pb, p);
    AddressOk(fs, i, dir, p);
    forall q: nat | q < p + 1 ensures SlotHere(Overwritten(d, at, es[p]), Address(g, chain, pb, q), es[q]) {
      if q < p {
        AddressesApart(fs, i, dir, p, q);
      }
      SlotWritten(d, at, es[p], Address(g, chain, pb, q), es[q]);
    }
  }

  /** The clusters a full directory asks for fit the longest chain there can be. */
  lemma RoomToGrow(g: Layout, clusters: nat, spc: nat, pb: nat, nr: nat)
    requires g.Valid() && g.blockSize == 32 * pb && spc == g.secPerClus && pb >= 16 && nr <= 2
    requires clusters * (spc * pb) < FAT_MAX_DIR_ENTRIES
    requires nr == 2 ==> spc * pb < 32
    ensures clusters + nr <= MAX_BYTES / g.ClusterSize() + 1
  {
    var c, q := g.ClusterSize(), MAX_BYTES / g.ClusterSize();
    assert c == 32 * (spc * pb);
    Mono(1, spc, pb);
    DivSplit(MAX_BYTES, c);
    assert clusters * c == 32 * (clusters * (spc * pb));
    if clusters + nr > q + 1 {
      Mono(q + 1, clusters + nr - 1, c);
      Distribute(clusters, nr - 1, c);
      Distribute(q, 1, c);
    }
  }

  lemma TwoNeeded(es: seq<Slot>, n: nat, pc: nat)
    requires pc >= 16 && 1 <= n <= MSDOS_SLOTS && Needed(es, n, pc) == 2
    ensures pc < 32 && |es| < FAT_MAX_DIR_ENTRIES
  {
    CeilSmall(n - TrailingFree(es), pc);
  }

  lemma CeilSmall(m: nat, pc: nat)
    requires m <= MSDOS_SLOTS && pc > 0
    ensures pc >= 32 ==> CeilDiv(m, pc) <= 1
  {
    DivSplit(m + (pc - 1), pc);
    if CeilDiv(m, pc) >= 2 {
      Mono(2, CeilDiv(m, pc), pc);
    }
  }

  /** Sizes of a directory that is a chain of `clusters` clusters. */
  lemma WholeClusters(g: Layout, clusters: nat, spc: nat, pb: nat, n: nat)
    requires g.blockSize == 32 * pb && spc == g.secPerClus && n == clusters * (spc * pb)
    ensures 32 * n == clusters * g.ClusterSize()
    ensures g.ClusterSize() > 0 ==> 32 * n % g.ClusterSize() == 0
  {
    assert g.ClusterSize() == 32 * (spc * pb);
    if g.ClusterSize() > 0 {
      DivOf(clusters, 0, g.ClusterSize());
    }
  }

  /** What comes of asking the volume for `nr` clusters. */
  ghost function VolumeAlloc(vol: Volume, nr: nat): AddStatus
    reads vol
  {
    if nr > 0 && vol.NoRoom(nr) then AddNoSpace else AddOk
  }

  /** How many clusters are asked for when `n` slots are added. */
  ghost function Wanted(dir: Directory, n: nat): nat
    requires dir.secPerClus * dir.perBlock > 0
    reads dir
  {
    Needed(dir.entries, n, dir.secPerClus * dir.perBlock)
  }

  /** What adding `n` slots comes to on the volume. */
  ghost function Outcome(vol: Volume, dir: Directory, n: nat): AddStatus
    requires dir.secPerClus * dir.perBlock > 0
    reads vol, dir
  {
    dir.AddOutcome(n, VolumeAlloc(vol, Wanted(dir, n)))
  }

  lemma OutcomeIs(vol: Volume, dir: Directory, n: nat, nr: nat)
    requires dir.secPerClus * dir.perBlock > 0 && nr == Needed(dir.entries, n, dir.secPerClus * dir.perBlock)
    ensures Wanted(dir, n) == nr && Outcome(vol, dir, n) == dir.AddOutcome(n, VolumeAlloc(vol, nr))
    ensures nr == 0 ==> VolumeAlloc(vol, nr) == AddOk
    ensures dir.Growable() && nr > 0 ==> Outcome(vol, dir, n) == VolumeAlloc(vol, nr)
    ensures Placed(Outcome(vol, dir, n)) ==
            if Outcome(vol, dir, n) == AddOk then CreateOk else CreateNoRoom(Outcome(vol, dir, n))
  {
  }

  /** Is there room for `n` slots? There is a free run that ends before the last slot of the largest
      directory, 65536 slots, or the directory is smaller and there are clusters for what the free slots
      at its end do not hold. */
  ghost predicate HasRoom(vol: Volume, dir: Directory, n: nat)
    requires dir.secPerClus * dir.perBlock > 0
    reads vol, dir
  {
    || !NoRun(dir.entries, n, Min(|dir.entries|, 65535))
    || (|dir.entries| < 65536 && TrailingFree(dir.entries) < n
        && !vol.NoRoom(CeilDiv(n - TrailingFree(dir.entries), dir.secPerClus * dir.perBlock)))
  }

  /** A directory that may grow takes the slots exactly if there is room for them. */
  lemma RoomDecides(vol: Volume, dir: Directory, n: nat)
    requires dir.secPerClus * dir.perBlock > 0 && dir.Growable() && n >= 1
    ensures Outcome(vol, dir, n) == AddOk <==> HasRoom(vol, dir, n)
    ensures !HasRoom(vol, dir, n) ==> Outcome(vol, dir, n) == AddNoSpace
  {
    var es, pc := dir.entries, dir.secPerClus * dir.perBlock;
    if NoRun(es, n, Min(|es|, 65535)) && |es| < 65536 {
      assert NoRun(es, n, |es|);
      assert TrailingFree(es) < n by {
        if TrailingFree(es) >= n {
          assert AllFree(es, |es| - n, n);
        }
      }
      CeilDivChar(n - TrailingFree(es), pc, 0);
    }
  }

  /** `fat_alloc_clusters` and `fat_chain_add`, if the addition of `n` slots needs them. */
  method GetClusters(fs: FileSystem, i: nat, dir: Directory, n: nat, nr: nat) returns (alloc: AddStatus)
    requires fs.Valid() && Backs(fs, i, dir) && 1 <= n <= MSDOS_SLOTS && dir.secPerClus * dir.perBlock >= 16
    requires nr == Needed(dir.entries, n, dir.secPerClus * dir.perBlock) <= 2
    modifies fs.inodes[i], fs.vol, fs.vol.disk
    ensures fs.Valid() && fs.inodes == old(fs.inodes) && fs.inodes[i].Sized() && alloc != AddIoError
    ensures fs.vol.data == old(fs.vol.data) && fs.Chains() == old(fs.Chains())[i := fs.inodes[i].chain]
    ensures alloc == old(VolumeAlloc(fs.vol, nr))
    ensures fs.inodes[i].chain == old(fs.inodes[i].chain) + old(fs.vol.Taking(nr))
    ensures fs.vol.Info() == old(fs.vol.InfoAfter(nr))
    ensures Grown(old(fs.vol.fat), old(fs.inodes[i].chain), fs.vol.fat, fs.inodes[i].chain)
    ensures |fs.inodes[i].chain| == |old(fs.inodes[i].chain)| + (if alloc == AddOk then nr else 0)
    ensures fs.inodes[i].iSize == old(fs.inodes[i].iSize) + (if alloc == AddOk then nr else 0) * fs.vol.g.ClusterSize()
  {
    hide Volume.Taking, Volume.InfoAfter;
    alloc := AddOk;
    if nr == 0 {
      fs.vol.NothingTaken();
      return;
    }
    if nr == 2 {
      TwoNeeded(dir.entries, n, dir.secPerClus * dir.perBlock);
    }
    RoomToGrow(fs.vol.g, |fs.inodes[i].chain|, dir.secPerClus, dir.perBlock, nr);
    WholeClusters(fs.vol.g, |fs.inodes[i].chain|, dir.secPerClus, dir.perBlock, |dir.entries|);
    var status := fs.Extend(i, nr);
    if status != Ok {
      alloc := AddNoSpace;
    }
  }

  lemma NotGrown(fat: seq<int>, c: seq<int>)
    ensures Grown(fat, c, fat, c)
  {
  }

  lemma AddedLength(es: seq<Slot>, es': seq<Slot>, off: nat, ss: seq<Slot>, grown: nat)
    requires Added(es, es', off, ss, grown)
    ensures |es'| == |es| + grown
  {
  }

  /** The slots go in, into new clusters if need be. */
  method PlaceSlots(fs: FileSystem, i: nat, dir: Directory, slots: seq<Slot>,
                    ghost q: Request, ghost name: seq<byte>, ghost u: seq<u16>)
      returns (status: CreateStatus, off: nat)
    requires fs.Valid() && Backs(fs, i, dir) && dir.Growable() && dir.perBlock % 2 == 0
    requires Healthy(dir.entries) && SlotsFor(dir.entries, q, name, u, slots)
    modifies fs.inodes[i], fs.vol, fs.vol.disk, dir`entries
    ensures fs.Valid() && fs.inodes == old(fs.inodes) && Backs(fs, i, dir) && Healthy(dir.entries)
    ensures fs.vol.data == old(fs.vol.data) && fs.Chains() == old(fs.Chains())[i := fs.inodes[i].chain]
    ensures status == CreateOk ==> CreatedIn(old(dir.entries), dir.entries, q, name, u, slots, off)
    ensures dir.secPerClus * dir.perBlock > 0 && status == Placed(old(Outcome(fs.vol, dir, |slots|)))
    ensures status == CreateOk || status == CreateNoRoom(AddNoSpace)
    ensures status == CreateOk <==> old(HasRoom(fs.vol, dir, |slots|))
    ensures status != CreateOk ==> Recs(dir.entries, 0) == old(Recs(dir.entries, 0))
    ensures Grown(old(fs.vol.fat), old(fs.inodes[i].chain), fs.vol.fat, fs.inodes[i].chain)
    ensures |fs.inodes[i].chain| == |old(fs.inodes[i].chain)|
      + (if status == CreateOk then old(Wanted(dir, |slots|)) else 0)
    ensures fs.inodes[i].chain == old(fs.inodes[i].chain) + old(fs.vol.Taking(Wanted(dir, |slots|)))
    ensures fs.vol.Info() == old(fs.vol.InfoAfter(Wanted(dir, |slots|)))
  {
    hide *;
    BacksSays(fs, i, dir);
    ghost var es, clusters, n := dir.entries, |fs.inodes[i].chain|, |dir.entries|;
    SlotsSay(es, q, name, u, slots, 0);
    var nr := dir.ClustersNeeded(|slots|);
    OutcomeIs(fs.vol, dir, |slots|, nr);
    RoomDecides(fs.vol, dir, |slots|);
    var alloc := GetClusters(fs, i, dir, |slots|, nr);
    ghost var grown;
    status, off, grown := Place(dir, slots, alloc, q, name, u);
    if status == CreateOk {
      AddedLength(es, dir.entries, off, slots, grown);
    }
    BacksAgain(fs, i, dir, clusters, if alloc == AddOk then nr else 0, n);
  }

  /** The slots the bytes of a chain hold. */
  function SlotsOn(d: seq<byte>, g: Layout, chain: seq<int>, pb: nat, n: nat): seq<Slot>
    requires pb > 0 && g.secPerClus > 0
  {
    seq(n, p requires 0 <= p => SlotAtByte(d, Address(g, chain, pb, p)))
  }

  function SlotAtByte(d: seq<byte>, at: int): Slot {
    if 0 <= at && at + 32 <= |d| then d[at..at + 32] else ZeroSlot()
  }

  lemma ReadFromVolume(fs: FileSystem, i: nat, dir: Directory)
    requires fs.Valid() && Backs(fs, i, dir)
    requires OnVolume(fs.vol.disk[..], fs.vol.g, fs.inodes[i].chain, dir.perBlock, dir.entries, |dir.entries|)
    ensures SlotsOn(fs.vol.disk[..], fs.vol.g, fs.inodes[i].chain, dir.perBlock, |dir.entries|) == dir.entries
  {
    hide FileSystem.Valid, Address;
    var d, g, chain, pb, es := fs.vol.disk[..], fs.vol.g, fs.inodes[i].chain, dir.perBlock, dir.entries;
    forall p: nat | p < |es| ensures SlotAtByte(d, Address(g, chain, pb, p)) == es[p] {
      assert SlotHere(d, Address(g, chain, pb, p), es[p]);
    }
  }

  /** Writing only the tables leaves the blocks of every file as they were. */
  lemma TablesOnly(fs: FileSystem, i: nat, d0: seq<byte>)
    requires fs.Valid() && Spans(fs.vol.g, fs.vol.disk.Length) && SameData(fs.vol.g, fs.vol.data, d0)
    requires fs.vol.g.secPerClus > 0
    ensures OthersSame(fs.vol.g, fs.Chains(), i, d0, fs.vol.disk[..])
  {
    var g, chains, d := fs.vol.g, fs.Chains(), fs.vol.disk[..];
    forall j: nat, sector: nat | j != i && j < |chains| && InChain(g, chains[j], sector)
      ensures BlockSame(g, d0, d, chains[j], sector)
    {
      assert fs.InodeOk(fs.inodes[j], fs.vol.fat);
      var c := chains[j][sector / g.secPerClus];
      assert IsCluster(fs.vol.fat, c);
      BlockOnDisk(g, c, sector % g.secPerClus, |d|);
      SameBehind(g, fs.vol.data, d0, d, ChainBlock(g, chains[j], sector) * g.blockSize);
    }
  }

  lemma ChainsHold(fs: FileSystem, i: nat)
    requires fs.Valid() && i < |fs.inodes|
    ensures |fs.Chains()| == |fs.inodes| && fs.Chains() == fs.Chains()[i := fs.inodes[i].chain]
    ensures SameData(fs.vol.g, fs.vol.data, fs.vol.disk[..])
  {
  }

  lemma SameBehind(g: Layout, data: seq<byte>, d0: seq<byte>, d: seq<byte>, at: int)
    requires SameData(g, data, d0) && SameData(g, data, d) && TablesEnd(g) <= at
    ensures |d0| == |d| && forall x :: at <= x < at + g.blockSize && 0 <= x < |d| ==> d[x] == d0[x]
  {
    forall x | at <= x < at + g.blockSize && 0 <= x < |d| ensures d[x] == d0[x] {
      assert KeptAt(g, data, d0, x) && KeptAt(g, data, d, x);
    }
  }

  lemma OthersTrans(g: Layout, chains: seq<seq<int>>, i: nat, d0: seq<byte>, d1: seq<byte>, d2: seq<byte>)
    requires g.secPerClus > 0 && OthersSame(g, chains, i, d0, d1) && OthersSame(g, chains, i, d1, d2)
    ensures OthersSame(g, chains, i, d0, d2)
  {
    hide ChainBlock;
    forall j: nat, sector: nat | j != i && j < |chains| && InChain(g, chains[j], sector)
      ensures BlockSame(g, d0, d2, chains[j], sector)
    {
      assert BlockSame(g, d0, d1, chains[j], sector) && BlockSame(g, d1, d2, chains[j], sector);
    }
  }

  /** `vfat_add_entry` on the volume: the clusters a longer directory needs come from the
      allocator and are chained to it, and its slots, old and new, stand in its blocks. */
  method AddName(fs: FileSystem, i: nat, dir: Directory, q: Request, qname: seq<byte>)
      returns (status: CreateStatus, off: nat, len: nat, ghost u: seq<u16>, slots: seq<Slot>)
    requires fs.Valid() && Backs(fs, i, dir) && Spans(fs.vol.g, fs.vol.disk.Length)
    requires dir.Growable() && dir.perBlock % 2 == 0 && Healthy(dir.entries) && RequestOk(q)
    modifies fs.inodes[i], fs.vol, fs.vol.disk, dir`entries
    ensures fs.Valid() && Backs(fs, i, dir) && Healthy(dir.entries)
    ensures Stripped(qname, len) && (status == CreateNoName <==> len == 0) && dir.secPerClus * dir.perBlock > 0
    ensures status == CreateOk || status.CreateNoRoom? ==>
      && SlotsFor(old(dir.entries), q, qname[..len], u, slots)
      && status == Placed(old(Outcome(fs.vol, dir, |slots|)))
      && (status == CreateOk <==> old(HasRoom(fs.vol, dir, |slots|)))
    ensures status.CreateNoRoom? ==> status == CreateNoRoom(AddNoSpace)
    ensures status == CreateOk ==> CreatedIn(old(dir.entries), dir.entries, q, qname[..len], u, slots, off)
    ensures status == CreateOk ==>
      SlotsOn(fs.vol.disk[..], fs.vol.g, fs.inodes[i].chain, dir.perBlock, |dir.entries|) == dir.entries
    ensures status.CreateFailed? ==> Refused(old(dir.entries), q, qname[..len], status.why)
    ensures status != CreateOk ==> Recs(dir.entries, 0) == old(Recs(dir.entries, 0))
    ensures fs.Chains() == old(fs.Chains())[i := fs.inodes[i].chain]
    ensures Grown(old(fs.vol.fat), old(fs.inodes[i].chain), fs.vol.fat, fs.inodes[i].chain)
    ensures |fs.inodes[i].chain| == |old(fs.inodes[i].chain)|
      + (if status == CreateOk then old(Wanted(dir, |slots|)) else 0)
    ensures status == CreateOk || status.CreateNoRoom? ==>
      && fs.inodes[i].chain == old(fs.inodes[i].chain) + old(fs.vol.Taking(Wanted(dir, |slots|)))
      && fs.vol.Info() == old(fs.vol.InfoAfter(Wanted(dir, |slots|)))
    ensures status == CreateNoName || status.CreateFailed? ==>
      fs.inodes[i].chain == old(fs.inodes[i].chain) && fs.vol.Info() == old(fs.vol.Info())
    ensures OthersSame(fs.vol.g, fs.Chains(), i, old(fs.vol.disk[..]), fs.vol.disk[..])
    ensures Elsewhere(
      fs.vol.g, fs.inodes[i].chain, dir.perBlock, |dir.entries|, old(fs.vol.disk[..]), fs.vol.disk[..])
  {
    hide *;
    off := 0;
    BacksSays(fs, i, dir);
    ChainsHold(fs, i);
    ghost var d0 := fs.vol.disk[..];
    TablesOnly(fs, i, d0);
    ghost var data := fs.vol.data;
    NotGrown(fs.vol.fat, fs.inodes[i].chain);
    NothingWritten(fs.vol.g, fs.inodes[i].chain, dir.perBlock, |dir.entries|, d0);
    status, len, slots, u := Prepare(dir, q, qname);
    if status == CreateOk {
      status, off := PlaceSlots(fs, i, dir, slots, q, qname[..len], u);
      TablesOnly(fs, i, d0);
      ChainsHold(fs, i);
      ghost var d1 := fs.vol.disk[..];
      WriteSlots(fs, i, dir);
      OthersTrans(fs.vol.g, fs.Chains(), i, d0, d1, fs.vol.disk[..]);
      ChainsHold(fs, i);
      ElsewhereBy(fs.vol.g, fs.inodes[i].chain, dir.perBlock, |dir.entries|, data, fs.vol.data,
                  d0, d1, fs.vol.disk[..], fs.vol.disk[..]);
      ReadFromVolume(fs, i, dir);
    }
  }

  lemma OthersFewer(
    g: Layout, chains: seq<seq<int>>, chains': seq<seq<int>>, i: nat, j: nat, d: seq<byte>, d': seq<byte>)
    requires g.secPerClus > 0 && j < |chains| && OthersSame(g, chains, i, d, d') && chains' == chains[j := []]
    ensures OthersSame(g, chains', i, d, d')
  {
    hide BlockSame;
    forall k: nat, sector: nat | k != i && k < |chains'| && InChain(g, chains'[k], sector)
      ensures BlockSame(g, d, d', chains'[k], sector)
    {
      assert k != j && chains'[k] == chains[k];
    }
  }

  /** Slots stay where they are when the blocks of their file stay. */
  lemma SlotsStay(fs: FileSystem, i: nat, dir: Directory, j: nat, d: seq<byte>)
    requires fs.Valid() && Backs(fs, i, dir) && Spans(fs.vol.g, fs.vol.disk.Length) && j != i
    requires |d| == fs.vol.disk.Length && OthersSame(fs.vol.g, fs.Chains(), j, d, fs.vol.disk[..])
    requires OnVolume(d, fs.vol.g, fs.inodes[i].chain, dir.perBlock, dir.entries, |dir.entries|)
    ensures OnVolume(fs.vol.disk[..], fs.vol.g, fs.inodes[i].chain, dir.perBlock, dir.entries, |dir.entries|)
  {
    hide FileSystem.Valid, Backs, Spans, OthersSame, BlockSame, SlotHere, Address;
    BacksSays(fs, i, dir);
    forall p: nat | p < |dir.entries|
      ensures SlotHere(fs.vol.disk[..], Address(fs.vol.g, fs.inodes[i].chain, dir.perBlock, p), dir.entries[p])
    {
      AddressOk(fs, i, dir, p);
      BlockStays(fs, i, j, p / dir.perBlock, d);
      SlotStays(fs.vol.g, fs.inodes[i].chain, dir.perBlock, p, d, fs.vol.disk[..], dir.entries[p]);
    }
  }

  lemma BlockStays(fs: FileSystem, i: nat, j: nat, sector: nat, d: seq<byte>)
    requires i < |fs.inodes| && fs.vol.g.secPerClus > 0 && InChain(fs.vol.g, fs.inodes[i].chain, sector) && j != i
    requires OthersSame(fs.vol.g, fs.Chains(), j, d, fs.vol.disk[..])
    ensures BlockSame(fs.vol.g, d, fs.vol.disk[..], fs.inodes[i].chain, sector)
  {
    assert fs.Chains()[i] == fs.inodes[i].chain;
  }

  lemma SlotStays(g: Layout, chain: seq<int>, pb: nat, p: nat, d: seq<byte>, d': seq<byte>, s: Slot)
    requires pb > 0 && g.secPerClus > 0 && g.blockSize == 32 * pb && p / pb >= 0
    requires SlotHere(d, Address(g, chain, pb, p), s) && BlockSame(g, d, d', chain, p / pb)
    ensures SlotHere(d', Address(g, chain, pb, p), s)
  {
    DivSplit(p, pb);
    var at := Address(g, chain, pb, p);
    assert d'[at..at + 32] == d[at..at + 32];
  }

  /** The clusters of file `j` are freed; the slots of the directory stand where they were. */
  method FileGoes(fs: FileSystem, i: nat, dir: Directory, j: nat, ghost d0: seq<byte>)
    requires fs.Valid() && Backs(fs, i, dir) && Spans(fs.vol.g, fs.vol.disk.Length)
    requires j < |fs.inodes| && j != i && fs.inodes[j].Sized() && fs.vol.g.secPerClus > 0
    requires OnVolume(fs.vol.disk[..], fs.vol.g, fs.inodes[i].chain, dir.perBlock, dir.entries, |dir.entries|)
    requires OthersSame(fs.vol.g, fs.Chains(), i, d0, fs.vol.disk[..])
    modifies fs.inodes[j], fs.vol, fs.vol.disk
    ensures fs.Valid() && fs.inodes == old(fs.inodes) && Backs(fs, i, dir)
    ensures fs.Chains() == old(fs.Chains())[j := []] && |fs.vol.fat| == |old(fs.vol.fat)|
    ensures forall x :: x in old(fs.inodes[j].chain) ==> IsCluster(fs.vol.fat, x) && fs.vol.fat[x] == FAT_ENT_FREE
    ensures forall x ::
      0 <= x < |fs.vol.fat| && x !in old(fs.inodes[j].chain) ==> fs.vol.fat[x] == old(fs.vol.fat)[x]
    ensures SlotsOn(fs.vol.disk[..], fs.vol.g, fs.inodes[i].chain, dir.perBlock, |dir.entries|) == dir.entries
    ensures OthersSame(fs.vol.g, fs.Chains(), i, d0, fs.vol.disk[..])
    ensures fs.vol.data == old(fs.vol.data) && fs.inodes[i].chain == old(fs.inodes[i].chain)
    ensures fs.inodes[j].iSize == 0 && fs.inodes[j].mmuPrivate == 0
    ensures fs.vol.freeClusters == Increased(old(fs.vol.freeClusters), |old(fs.inodes[j].chain)|)
    ensures fs.vol.prevFree == old(fs.vol.prevFree) && (old(fs.vol.Exact()) ==> fs.vol.Exact())
  {
    hide *;
    BacksSays(fs, i, dir);
    ChainsHold(fs, j);
    fs.ValidBystanders(j);
    ghost var d2, chains, clusters, n := fs.vol.disk[..], fs.Chains(), |fs.inodes[i].chain|, |dir.entries|;
    fs.Evict(j);
    BacksAgain(fs, i, dir, clusters, 0, n);
    TablesOnly(fs, j, d2);
    SlotsStay(fs, i, dir, j, d2);
    ReadFromVolume(fs, i, dir);
    TablesOnly(fs, i, d2);
    OthersFewer(fs.vol.g, chains, fs.Chains(), i, j, d0, d2);
    OthersTrans(fs.vol.g, fs.Chains(), i, d0, d2, fs.vol.disk[..]);
  }

  lemma InodesApart(fs: FileSystem, i: nat, j: nat)
    requires fs.Valid() && i < |fs.inodes| && j < |fs.inodes| && i != j
    ensures fs.inodes[i] != fs.inodes[j]
  {
    assert Differ(fs.inodes, if i < j then i else j, if i < j then j else i);
  }

  lemma StartLeads(fs: FileSystem, j: nat)
    requires fs.Valid() && j < |fs.inodes|
    ensures FileChain(fs.vol.fat, fs.inodes[j].iStart, fs.inodes[j].chain)
  {
    assert fs.InodeOk(fs.inodes[j], fs.vol.fat);
  }

  /** `vfat_unlink` on the volume, with the file's last reference gone (`fat_evict_inode`): the slots
      in the directory's blocks are marked deleted, the clusters of the file, inode `j`, are free,
      and nothing of another file changes. */
  method RemoveName(fs: FileSystem, i: nat, dir: Directory, rd: Reader, qname: seq<byte>, j: nat)
      returns (found: bool, len: nat, ghost r: Rec)
    requires fs.Valid() && Backs(fs, i, dir) && Spans(fs.vol.g, fs.vol.disk.Length) && Healthy(dir.entries)
    requires j < |fs.inodes| && j != i && fs.inodes[j].Sized()
    modifies fs.inodes[i], fs.inodes[j], fs.vol, fs.vol.disk, dir`entries
    ensures fs.Valid() && Backs(fs, i, dir) && Healthy(dir.entries) && Stripped(qname, len) && (len == 0 ==> !found)
    ensures found ==> FirstOf(r, old(Recs(dir.entries, 0)), rd, qname[..len])
    ensures found ==> Recs(dir.entries, 0) == old(Recs(dir.entries, 0)) - {r}
    ensures found ==>
      SlotsOn(fs.vol.disk[..], fs.vol.g, fs.inodes[i].chain, dir.perBlock, |dir.entries|) == dir.entries
    ensures found ==> fs.Chains() == old(fs.Chains())[j := []] && |fs.vol.fat| == |old(fs.vol.fat)|
    ensures found && GetStart(fs.vol.g.ft == Fat32, r.short) == old(fs.inodes[j].iStart) ==>
      FileChain(old(fs.vol.fat), GetStart(fs.vol.g.ft == Fat32, r.short), old(fs.inodes[j].chain))
    ensures found ==> forall x ::
      (x in old(fs.inodes[j].chain) ==> IsCluster(fs.vol.fat, x) && fs.vol.fat[x] == FAT_ENT_FREE)
    ensures found ==> forall x ::
      (0 <= x < |fs.vol.fat| && x !in old(fs.inodes[j].chain) ==> fs.vol.fat[x] == old(fs.vol.fat)[x])
    ensures !found ==> dir.entries == old(dir.entries) && fs.vol.disk[..] == old(fs.vol.disk[..])
    ensures !found ==> fs.Chains() == old(fs.Chains())
    ensures !found && len > 0 ==> forall x :: x in Recs(dir.entries, 0) ==> !RecAccepts(rd, qname[..len], x)
    ensures OthersSame(fs.vol.g, fs.Chains(), i, old(fs.vol.disk[..]), fs.vol.disk[..])
    ensures Elsewhere(
      fs.vol.g, fs.inodes[i].chain, dir.perBlock, |dir.entries|, old(fs.vol.disk[..]), fs.vol.disk[..])
    ensures found ==> fs.inodes[j].iSize == 0 && fs.inodes[j].mmuPrivate == 0
    ensures found ==> fs.vol.freeClusters == Increased(old(fs.vol.freeClusters), |old(fs.inodes[j].chain)|)
    ensures fs.vol.prevFree == old(fs.vol.prevFree) && (old(fs.vol.Exact()) ==> fs.vol.Exact())
  {
    hide *;
    BacksSays(fs, i, dir);
    ChainsHold(fs, i);
    ghost var d0, data := fs.vol.disk[..], fs.vol.data;
    TablesOnly(fs, i, d0);
    NothingWritten(fs.vol.g, fs.inodes[i].chain, dir.perBlock, |dir.entries|, d0);
    StartLeads(fs, j);
    ghost var clusters, n := |fs.inodes[i].chain|, |dir.entries|;
    found, len, r := Unlink(dir, rd, qname);
    BacksAgain(fs, i, dir, clusters, 0, n);
    InodesApart(fs, i, j);
    if found {
      WriteSlots(fs, i, dir);
      ChainsHold(fs, i);
      ghost var d1 := fs.vol.disk[..];
      FileGoes(fs, i, dir, j, d0);
      ChainsHold(fs, i);
      ElsewhereBy(fs.vol.g, fs.inodes[i].chain, dir.perBlock, |dir.entries|, data, fs.vol.data,
                  d0, d0, d1, fs.vol.disk[..]);
    }
  }
}
