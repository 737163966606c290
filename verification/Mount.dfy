/** `fat_fill_super`: from the fields of the boot sector to the layout of the volume. Numbers wrap
    as the 32-bit and 64-bit variables of the driver do. */
module FatMount {
  import opened Arithmetic
  import opened EntryCodec
  import opened Layout
  import opened DirSlots

  const U32 := 0x1_0000_0000
  const U64 := 0x1_0000_0000_0000_0000

  type u32 = x: int | 0 <= x < 0x1_0000_0000

  datatype BootSector = BootSector(
    sectorSize: u16, secPerClus: byte, reserved: u16, fats: byte, dirEntries: u16,
    sectors: u16, totalSect: u32, fatLength: u16, fat32Length: u32, mediaOk: bool)
  {
    function TotalSectors(): nat { if sectors == 0 then totalSect else sectors }

    predicate HasTable() { fatLength != 0 || fat32Length != 0 }

    predicate IsFat32() { fatLength == 0 && fat32Length != 0 }

    function TableLength(): nat { if IsFat32() then fat32Length else fatLength }

    function DirStart(): nat { reserved + fats * TableLength() }

    function RootBlocks(): nat
      requires sectorSize > 0
    {
      dirEntries * 32 / sectorSize
    }

    function DataStart(): nat
      requires sectorSize > 0
    {
      DirStart() + RootBlocks()
    }

    function LayoutFor(t: FatType, clusters: nat): Layout
      requires sectorSize > 0
    {
      Layout(t, sectorSize, reserved, TableLength(), fats, clusters + FAT_START_ENT, secPerClus,
             DirStart(), RootBlocks(), DataStart())
    }
  }

  /** The largest counts of clusters (`MAX_FAT12` and so on); the header that defines them is not
      part of this model. */
  datatype Limits = Limits(fat12: nat, fat16: nat, fat32: nat) {
    function Of(t: FatType): nat {
      match t
      case Fat12 => fat12
      case Fat16 => fat16
      case Fat32 => fat32
    }
  }

  datatype MountResult = Mounted(g: Layout) | NotFat | SectorTooSmall

  predicate PowerOfTwo(n: nat) { n == 1 || (n > 1 && n % 2 == 0 && PowerOfTwo(n / 2)) }

  /** `fat_read_bpb`. */
  predicate BpbOk(b: BootSector) {
    && b.reserved != 0 && b.fats != 0 && b.mediaOk
    && PowerOfTwo(b.sectorSize) && 512 <= b.sectorSize <= 4096 && PowerOfTwo(b.secPerClus)
  }

  /** `calc_fat_clusters`: entries that the table has room for. */
  function CalcFatClusters(t: FatType, blockSize: nat, fatLength: nat): nat {
    match t
    case Fat12 => fatLength * blockSize * 8 / 12
    case Fat16 => blockSize * 8 / 16 * fatLength
    case Fat32 => blockSize * 8 / 32 * fatLength
  }

  /** Clusters behind `data_start`, by the sector count. */
  function SectorClusters(b: BootSector): u32
    requires BpbOk(b)
  {
    (b.TotalSectors() - b.DataStart()) % U64 / b.secPerClus % U32
  }

  function TableType(b: BootSector, lim: Limits): FatType
    requires BpbOk(b)
  {
    if b.IsFat32() then Fat32 else if SectorClusters(b) > lim.fat12 then Fat16 else Fat12
  }

  /** The smaller of that number and what the table has entries for. */
  function TotalClusters(b: BootSector, lim: Limits): u32
    requires BpbOk(b)
  {
    var inTable := (CalcFatClusters(TableType(b, lim), b.sectorSize, b.TableLength()) % U32 - FAT_START_ENT) % U32;
    if SectorClusters(b) < inTable then SectorClusters(b) else inTable
  }

  function FillSuper(b: BootSector, device: nat, lim: Limits): MountResult {
    if !BpbOk(b) then NotFat
    else if b.sectorSize < device then SectorTooSmall
    else if b.dirEntries % (b.sectorSize / 32) != 0 then NotFat
    else if TotalClusters(b, lim) > lim.Of(TableType(b, lim)) then NotFat
    else Mounted(b.LayoutFor(TableType(b, lim), TotalClusters(b, lim)))
  }

  /** Blocks are whole sectors of the device, and a boot sector is refused for its sector size exactly if
      they would not be. */
  lemma WholeSectors(b: BootSector, device: nat, lim: Limits)
    requires BpbOk(b) && PowerOfTwo(device)
    ensures device > 0
    ensures FillSuper(b, device, lim) == SectorTooSmall <==> b.sectorSize % device != 0
    ensures FillSuper(b, device, lim).Mounted? ==> FillSuper(b, device, lim).g.blockSize % device == 0
  {
    hide TotalClusters, TableType;
    PowersDivide(device, b.sectorSize);
  }

  lemma SectorSizes(n: nat)
    requires 512 <= n <= 4096
    ensures PowerOfTwo(n) <==> n in {512, 1024, 2048, 4096}
  {
    if PowerOfTwo(n) {
      Eighth(n);
      Eighth(n / 8);
      Eighth(n / 8 / 8);
      SmallPowers(n / 8 / 8 / 8);
    }
    SmallPowers(1);
    assert PowerOfTwo(8) && PowerOfTwo(16) && PowerOfTwo(32) && PowerOfTwo(64) && PowerOfTwo(128) && PowerOfTwo(256);
    assert PowerOfTwo(512) && PowerOfTwo(1024) && PowerOfTwo(2048) && PowerOfTwo(4096);
  }

  lemma SmallPowers(n: nat)
    requires n <= 8
    ensures PowerOfTwo(n) <==> n in {1, 2, 4, 8}
  {
    assert PowerOfTwo(1) && PowerOfTwo(2) && PowerOfTwo(4) && PowerOfTwo(8);
    assert !PowerOfTwo(0) && !PowerOfTwo(3) && !PowerOfTwo(6);
  }

  lemma ClusterSizes(n: byte)
    ensures PowerOfTwo(n) <==> n in {1, 2, 4, 8, 16, 32, 64, 128}
  {
    if PowerOfTwo(n) && n >= 8 {
      Eighth(n);
      if n >= 64 {
        Eighth(n / 8);
        SmallPowers(n / 8 / 8);
      } else {
        SmallPowers(n / 8);
      }
    } else if n < 8 {
      SmallPowers(n);
    }
    assert PowerOfTwo(8) && PowerOfTwo(16) && PowerOfTwo(32) && PowerOfTwo(64) && PowerOfTwo(128);
  }

  lemma WholeRoot(n: nat, pb: nat)
    requires pb > 0
    ensures n % pb == 0 <==> n * 32 % (32 * pb) == 0
  {
    DivSplit(n, pb);
    assert n * 32 == n / pb * (32 * pb) + 32 * (n % pb);
    DivOf(n / pb, 32 * (n % pb), 32 * pb);
  }

  /** Which boot sectors are accepted, by their fields: a medium, reserved sectors and copies of a table,
      sectors of one of four sizes and no smaller than the device's, a power of two of them in a cluster, a
      root directory of whole sectors, and no more clusters than the kind of table may have. */
  lemma MountExactly(b: BootSector, device: nat, lim: Limits)
    ensures FillSuper(b, device, lim).Mounted? <==>
      && b.mediaOk && b.reserved != 0 && b.fats != 0
      && b.sectorSize in {512, 1024, 2048, 4096} && b.secPerClus in {1, 2, 4, 8, 16, 32, 64, 128}
      && device <= b.sectorSize && b.dirEntries * 32 % b.sectorSize == 0
      && (BpbOk(b) ==> TotalClusters(b, lim) <= lim.Of(TableType(b, lim)))
  {
    hide TotalClusters, TableType, PowerOfTwo;
    ClusterSizes(b.secPerClus);
    if 512 <= b.sectorSize <= 4096 {
      SectorSizes(b.sectorSize);
      if BpbOk(b) {
        WholeRoot(b.dirEntries, b.sectorSize / 32);
      }
    }
  }

  /** Of two powers of two the smaller divides the larger. */
  lemma {:induction false} PowersDivide(m: nat, n: nat)
    requires PowerOfTwo(m) && PowerOfTwo(n)
    ensures m > 0 && (n % m == 0 <==> m <= n)
    decreases n
  {
    if m > 1 && n > 1 {
      PowersDivide(m / 2, n / 2);
      Doubled(m / 2, n / 2);
    }
  }

  lemma Doubled(m: nat, n: nat)
    requires m > 0
    ensures 2 * n % (2 * m) == 2 * (n % m)
  {
    DivSplit(n, m);
    assert 2 * n == n / m * (2 * m) + 2 * (n % m);
    DivOf(n / m, 2 * (n % m), 2 * m);
  }

  lemma Eighth(n: nat)
    requires PowerOfTwo(n) && n >= 8
    ensures n == 8 * (n / 8) && PowerOfTwo(n / 8)
  {
    assert PowerOfTwo(n / 2);
    assert PowerOfTwo(n / 2 / 2);
    assert PowerOfTwo(n / 2 / 2 / 2);
  }

  lemma SectorMultiple(n: nat)
    requires PowerOfTwo(n) && 512 <= n <= 4096
    ensures n % 512 == 0
  {
    hide PowerOfTwo;
    Eighth(n);
    Eighth(n / 8);
    Eighth(n / 8 / 8);
  }

  lemma HalfTimes(h: nat, n: nat, b: nat, k: nat)
    requires h * k == b
    ensures k * (h * n) == n * b
  {
  }

  lemma EvenShare(b: nat, k: nat)
    requires b % 512 == 0 && (k == 2 || k == 4)
    ensures b * 8 / (8 * k) * k == b
  {
    assert b == b / 512 * 512;
  }

  lemma TwelveBits(m: nat, n: nat)
    requires 1 <= m <= n * 8 / 12
    ensures m - 1 + (m - 1) / 2 + 2 <= n
  {
  }

  /** Every entry the table has room for lies inside it. */
  lemma TableHasRoom(t: FatType, blockSize: nat, fatLength: nat, m: nat)
    requires 512 <= blockSize && blockSize % 512 == 0 && 1 <= fatLength
    requires 1 <= m <= CalcFatClusters(t, blockSize, fatLength)
    ensures ByteOffset(t, m - 1) + Width(t) <= fatLength * blockSize
  {
    match t
    case Fat12 =>
      TwelveBits(m, fatLength * blockSize);
    case Fat16 =>
      EvenShare(blockSize, 2);
      HalfTimes(blockSize * 8 / 16, fatLength, blockSize, 2);
    case Fat32 =>
      EvenShare(blockSize, 4);
      HalfTimes(blockSize * 8 / 32, fatLength, blockSize, 4);
  }

  lemma TwelveBitsFull(m: nat, n: nat)
    requires 1 <= m && m - 1 + (m - 1) / 2 + 2 <= n
    ensures m <= n * 8 / 12
  {
  }

  /** The count of entries computed is just the number of entries that lie inside the table. */
  lemma TableEntries(t: FatType, blockSize: nat, fatLength: nat, m: nat)
    requires 512 <= blockSize && blockSize % 512 == 0 && 1 <= fatLength && 1 <= m
    ensures m <= CalcFatClusters(t, blockSize, fatLength)
      <==> ByteOffset(t, m - 1) + Width(t) <= fatLength * blockSize
  {
    if m <= CalcFatClusters(t, blockSize, fatLength) {
      TableHasRoom(t, blockSize, fatLength, m);
    } else if t == Fat12 {
      if m - 1 + (m - 1) / 2 + 2 <= fatLength * blockSize {
        TwelveBitsFull(m, fatLength * blockSize);
      }
    } else {
      var k := if t == Fat16 then 2 else 4;
      EvenShare(blockSize, k);
      HalfTimes(blockSize * 8 / (8 * k), fatLength, blockSize, k);
    }
  }

  /** The root directory of an accepted boot sector is whole blocks, just enough for its entries. */
  lemma RootArea(b: BootSector, device: nat, lim: Limits)
    requires FillSuper(b, device, lim).Mounted?
    ensures var g := FillSuper(b, device, lim).g; g.dirBlocks * g.blockSize == 32 * b.dirEntries
  {
    hide CalcFatClusters, TableType, TotalClusters, PowerOfTwo, BootSector.DirStart, BootSector.DataStart,
      BootSector.TableLength;
    SectorMultiple(b.sectorSize);
    WholeBlocks(b.dirEntries, b.sectorSize / 32, b.sectorSize);
  }

  lemma WholeBlocks(n: nat, pb: nat, size: nat)
    requires pb > 0 && size == 32 * pb && n % pb == 0
    ensures n * 32 / size * size == 32 * n
  {
    DivSplit(n, pb);
    var q := n / pb;
    assert q * size == 32 * (q * pb);
    DivOf(q, 0, size);
  }

  /** A table that is not of 32 bits has 12 exactly if the sectors from the first cluster on cannot
      hold more clusters than its bound. */
  lemma TableKind(b: BootSector, lim: Limits)
    requires BpbOk(b) && !b.IsFat32() && b.DataStart() <= b.TotalSectors()
    ensures TableType(b, lim) == Fat12 <==> b.TotalSectors() < b.DataStart() + (lim.fat12 + 1) * b.secPerClus
    ensures TableType(b, lim) != Fat32
  {
    hide SectorClusters, PowerOfTwo;
    SectorsCounted(b);
    MoreThan(b.TotalSectors() - b.DataStart(), b.secPerClus, lim.fat12);
  }

  lemma SectorsCounted(b: BootSector)
    requires BpbOk(b) && b.DataStart() <= b.TotalSectors()
    ensures b.secPerClus > 0 && SectorClusters(b) == (b.TotalSectors() - b.DataStart()) / b.secPerClus
  {
    SectorCount(b.TotalSectors() - b.DataStart(), b.secPerClus);
  }

  lemma MoreThan(n: nat, d: nat, q: nat)
    requires d > 0
    ensures n / d > q <==> n >= (q + 1) * d
  {
    DivSplit(n, d);
    if n / d <= q {
      Mono(n / d + 1, q + 1, d);
    } else {
      Mono(q + 1, n / d, d);
    }
  }

  lemma RoomyTable(t: FatType, blockSize: nat, fatLength: nat)
    requires 512 <= blockSize && blockSize % 512 == 0 && 1 <= fatLength
    ensures CalcFatClusters(t, blockSize, fatLength) >= 128
  {
    Mono(1, fatLength, blockSize);
    Mono(1, fatLength, blockSize * 8 / 16);
    Mono(1, fatLength, blockSize * 8 / 32);
  }

  /** Wrapping to 32 bits does no harm: the count never exceeds the entries of the table. */
  lemma CountFitsTable(n: nat, s: nat)
    requires n >= 128 && s < U32
    ensures var inTable := (n % U32 - FAT_START_ENT) % U32;
      (if s < inTable then s else inTable) + FAT_START_ENT <= n
  {
    if n % U32 < FAT_START_ENT {
      assert n >= U32;
    }
  }

  /** The layout of a mounted volume is in order exactly if there is a table, at least one cluster,
      and no cluster with a number that the table reserves. */
  lemma MountedValid(b: BootSector, device: nat, lim: Limits)
    requires FillSuper(b, device, lim).Mounted?
    ensures FillSuper(b, device, lim).g.Valid()
      <==> b.HasTable() && 1 <= TotalClusters(b, lim) <= Bad(TableType(b, lim)) - FAT_START_ENT
  {
    var t, total := TableType(b, lim), TotalClusters(b, lim);
    SectorMultiple(b.sectorSize);
    if b.HasTable() {
      RoomyTable(t, b.sectorSize, b.TableLength());
      CountFitsTable(CalcFatClusters(t, b.sectorSize, b.TableLength()), SectorClusters(b));
      TableHasRoom(t, b.sectorSize, b.TableLength(), total + FAT_START_ENT);
    }
  }

  /** With bounds that leave out the reserved numbers it is in order exactly if there is a table and
      the sector count gives a cluster. */
  lemma LayoutInOrder(b: BootSector, device: nat, lim: Limits)
    requires FillSuper(b, device, lim).Mounted? && lim.Of(TableType(b, lim)) <= Bad(TableType(b, lim)) - FAT_START_ENT
    ensures FillSuper(b, device, lim).g.Valid() <==> b.HasTable() && SectorClusters(b) >= 1
  {
    hide PowerOfTwo, CalcFatClusters, SectorClusters, Layout.Valid;
    MountedValid(b, device, lim);
    if b.HasTable() {
      SectorMultiple(b.sectorSize);
      if TableType(b, lim) == Fat12 {
        SmallTable(b.sectorSize, b.TableLength());
      }
      TableWraps(TableType(b, lim), b.sectorSize, b.TableLength());
    }
  }

  lemma SmallTable(blockSize: nat, fatLength: nat)
    requires blockSize <= 4096 && fatLength < 0x1_0000
    ensures CalcFatClusters(Fat12, blockSize, fatLength) < U32
  {
    Mono(blockSize, 4096, fatLength);
  }

  /** Wrapped or not, the table has entries for more than the reserved numbers. */
  lemma TableWraps(t: FatType, blockSize: nat, fatLength: nat)
    requires 512 <= blockSize && blockSize % 512 == 0 && 1 <= fatLength
    requires t == Fat12 ==> CalcFatClusters(t, blockSize, fatLength) < U32
    ensures (CalcFatClusters(t, blockSize, fatLength) % U32 - FAT_START_ENT) % U32 >= 1
  {
    RoomyTable(t, blockSize, fatLength);
    if t != Fat12 {
      var m := blockSize / 512;
      var k := if t == Fat16 then 2 else 1;
      assert CalcFatClusters(t, blockSize, fatLength) == 128 * k * m * fatLength;
      assert 128 * k * m * fatLength == 128 * (k * m * fatLength);
      EvenWrap(k * m * fatLength);
    }
  }

  lemma EvenWrap(x: nat)
    ensures 128 * x % U32 != 2
  {
    assert 128 * x % U32 % 128 == 0;
  }

  lemma SectorCount(n: nat, spc: nat)
    requires n < U32 && spc > 0
    ensures n % U64 / spc % U32 == n / spc
  {
    DivSplit(n, spc);
    Mono(1, spc, n / spc);
  }

  lemma TotalBounded(b: BootSector, lim: Limits)
    requires BpbOk(b)
    ensures b.secPerClus > 0
    ensures b.DataStart() <= b.TotalSectors() ==>
      TotalClusters(b, lim) <= (b.TotalSectors() - b.DataStart()) / b.secPerClus
  {
    hide CalcFatClusters, TableType;
    if b.DataStart() <= b.TotalSectors() {
      SectorCount(b.TotalSectors() - b.DataStart(), b.secPerClus);
    }
  }

  lemma ClustersEnd(k: nat, spc: nat, start: nat, total: nat)
    requires spc > 0 && (start <= total ==> k <= (total - start) / spc)
    ensures k * spc + start <= total <==> start <= total
  {
    Mono(0, k, spc);
    if start <= total {
      DivSplit(total - start, spc);
      Mono(k, (total - start) / spc, spc);
    }
  }

  /** Behind the tables there are sectors for every cluster exactly if the boot sector counts as
      many sectors as lie before the first cluster. */
  lemma ClustersOnVolume(b: BootSector, device: nat, lim: Limits)
    requires FillSuper(b, device, lim).Mounted?
    ensures var g := FillSuper(b, device, lim).g;
      ClusterBlock(g, g.maxCluster) <= b.TotalSectors() <==> g.dataStart <= b.TotalSectors()
  {
    hide PowerOfTwo, CalcFatClusters, TableType, TotalClusters;
    TotalBounded(b, lim);
    ClustersEnd(TotalClusters(b, lim), b.secPerClus, b.DataStart(), b.TotalSectors());
  }

  /** The sectors counted reach to the end of cluster `c`, and the table has an entry for it. */
  ghost predicate ClusterThere(b: BootSector, t: FatType, c: nat)
    requires b.sectorSize > 0
  {
    && (c - FAT_START_ENT + 1) * b.secPerClus + b.DataStart() <= b.TotalSectors()
    && ByteOffset(t, c) + Width(t) <= b.TableLength() * b.sectorSize
  }

  lemma ThereIs(b: BootSector, t: FatType, c: nat)
    requires BpbOk(b) && b.HasTable() && b.DataStart() <= b.TotalSectors() && c >= FAT_START_ENT
    ensures ClusterThere(b, t, c)
      <==> c < SectorClusters(b) + FAT_START_ENT && c < CalcFatClusters(t, b.sectorSize, b.TableLength())
  {
    hide PowerOfTwo, CalcFatClusters, SectorClusters;
    SectorMultiple(b.sectorSize);
    TableEntries(t, b.sectorSize, b.TableLength(), c + 1);
    SectorsCounted(b);
    MoreThan(b.TotalSectors() - b.DataStart(), b.secPerClus, c - FAT_START_ENT);
  }

  /** The number of entries for clusters stays below 2^32, or what is left of it by the wrap is enough for
      the clusters counted. */
  predicate CountKept(b: BootSector, t: FatType)
    requires BpbOk(b)
  {
    var n := CalcFatClusters(t, b.sectorSize, b.TableLength()) - FAT_START_ENT;
    n < U32 || SectorClusters(b) <= n % U32
  }

  lemma WrapMinus(n: nat)
    requires n >= FAT_START_ENT
    ensures (n % U32 - FAT_START_ENT) % U32 == (n - FAT_START_ENT) % U32
  {
  }

  lemma TotalIs(b: BootSector, lim: Limits)
    requires BpbOk(b) && b.HasTable()
    ensures var n := CalcFatClusters(TableType(b, lim), b.sectorSize, b.TableLength());
      n >= FAT_START_ENT && TotalClusters(b, lim) == Min(SectorClusters(b), (n - FAT_START_ENT) % U32)
  {
    hide PowerOfTwo, CalcFatClusters, SectorClusters, TableType;
    SectorMultiple(b.sectorSize);
    RoomyTable(TableType(b, lim), b.sectorSize, b.TableLength());
    WrapMinus(CalcFatClusters(TableType(b, lim), b.sectorSize, b.TableLength()));
  }

  /** No cluster is left out: those of a volume are just the ones whose sectors are counted and whose
      entry lies in the table. */
  lemma ClustersOfVolume(b: BootSector, device: nat, lim: Limits, c: nat)
    requires FillSuper(b, device, lim).Mounted? && b.HasTable() && b.DataStart() <= b.TotalSectors()
    requires CountKept(b, TableType(b, lim)) && c >= FAT_START_ENT
    ensures var g := FillSuper(b, device, lim).g;
      c < g.maxCluster
      <==>
        && ClusterBlock(g, c) + g.secPerClus <= b.TotalSectors()
        && ByteOffset(g.ft, c) + Width(g.ft) <= g.TableBytes()
  {
    hide PowerOfTwo, CalcFatClusters, SectorClusters, TableType, TotalClusters;
    TotalIs(b, lim);
    ThereIs(b, TableType(b, lim), c);
    Distribute(c - FAT_START_ENT, 1, b.secPerClus);
  }

  /** And that is so exactly as long as no cluster is lost by the wrap of the number of entries. */
  lemma ClustersExactly(b: BootSector, device: nat, lim: Limits)
    requires FillSuper(b, device, lim).Mounted? && b.HasTable() && b.DataStart() <= b.TotalSectors()
    ensures var g := FillSuper(b, device, lim).g;
      (forall c :: c >= FAT_START_ENT ==> (c < g.maxCluster <==> ClusterThere(b, g.ft, c)))
      <==> CountKept(b, TableType(b, lim))
  {
    hide PowerOfTwo, CalcFatClusters, SectorClusters, TableType, TotalClusters, ClusterThere;
    var t := TableType(b, lim);
    TotalIs(b, lim);
    forall c | c >= FAT_START_ENT
      ensures ClusterThere(b, t, c)
        <==> c < SectorClusters(b) + FAT_START_ENT && c < CalcFatClusters(t, b.sectorSize, b.TableLength())
    {
      ThereIs(b, t, c);
    }
    if !CountKept(b, t) {
      var c := TotalClusters(b, lim) + FAT_START_ENT;
      assert ClusterThere(b, t, c);
    }
  }

  /** By the fields: with `table` sectors in a table and `count` sectors on the volume, the last sector of
      cluster `c` is one of them, and the entry of `c` lies in the table. */
  ghost predicate OnVolume(b: BootSector, t: FatType, table: nat, count: nat, c: nat)
    requires b.sectorSize > 0
  {
    && FirstSector(b, table) + (c - 2) * b.secPerClus + b.secPerClus - 1 < count
    && ByteOffset(t, c) + Width(t) <= table * b.sectorSize
  }

  /** The first sector behind the boot sector's own, the copies of the table and the root directory. */
  function FirstSector(b: BootSector, table: nat): int
    requires b.sectorSize > 0
  {
    b.reserved + b.fats * table + b.dirEntries * 32 / b.sectorSize
  }

  /** A boot sector by its fields: the 16-bit count of sectors and length of a table if they are given, the
      32-bit ones if not; a table of 32 bits exactly if its length is the 32-bit one, and of 12 if the sectors
      behind the root directory hold no more clusters than the bound; fewer than 2^32 entries for clusters. */
  ghost predicate Reads(b: BootSector, lim: Limits, t: FatType, table: nat, count: nat) {
    && table != 0 && count == (if b.sectors != 0 then b.sectors else b.totalSect)
    && table == (if b.fatLength != 0 then b.fatLength else b.fat32Length)
    && b.sectorSize > 0 && FirstSector(b, table) <= count
    && (b.fatLength == 0 ==> table * (b.sectorSize / 4) - 2 < 0x1_0000_0000)
    && t == (if b.fatLength == 0 then Fat32
             else if count < FirstSector(b, table) + (lim.fat12 + 1) * b.secPerClus then Fat12 else Fat16)
  }

  /** What an ordinary boot sector is mounted as, by its fields alone: it is accepted exactly if the first
      number above the bound is no cluster, and then the clusters are those on the volume, counted from 2. */
  lemma VolumeByFields(b: BootSector, device: nat, lim: Limits, t: FatType, table: nat, count: nat)
    requires Reads(b, lim, t, table, count)
    ensures FillSuper(b, device, lim).Mounted? <==>
      && b.mediaOk && b.reserved != 0 && b.fats != 0
      && b.sectorSize in {512, 1024, 2048, 4096} && b.secPerClus in {1, 2, 4, 8, 16, 32, 64, 128}
      && device <= b.sectorSize && b.dirEntries * 32 % b.sectorSize == 0
      && !OnVolume(b, t, table, count, lim.Of(t) + 2)
    ensures FillSuper(b, device, lim).Mounted? ==>
      var g := FillSuper(b, device, lim).g;
      && g.ft == t && g.fatLength == table && ClusterBlock(g, 2) == FirstSector(b, table)
      && g.blockSize == b.sectorSize && g.fatStart == b.reserved && g.fats == b.fats && g.secPerClus == b.secPerClus
      && forall c: nat :: c >= 2 ==> (c < g.maxCluster <==> OnVolume(b, t, table, count, c))
  {
    hide PowerOfTwo, BpbOk, CalcFatClusters, SectorClusters, TotalClusters, TableType, OnVolume;
    MountExactly(b, device, lim);
    if BpbOk(b) {
      ReadsAs(b, lim, t, table, count);
      forall c: nat | c >= 2 ensures c < TotalClusters(b, lim) + 2 <==> OnVolume(b, t, table, count, c) {
        Counted(b, lim, c);
      }
      assert lim.Of(t) + 2 < TotalClusters(b, lim) + 2 <==> OnVolume(b, t, table, count, lim.Of(t) + 2);
    }
  }

  lemma ReadsAs(b: BootSector, lim: Limits, t: FatType, table: nat, count: nat)
    requires Reads(b, lim, t, table, count) && BpbOk(b)
    ensures b.HasTable() && table == b.TableLength() && count == b.TotalSectors() && t == TableType(b, lim)
    ensures FirstSector(b, table) == b.DataStart() <= count && CountKept(b, t)
  {
    hide PowerOfTwo, SectorClusters, CountKept, TableType;
    if !b.IsFat32() {
      TableKind(b, lim);
    }
    Kinds(b, lim);
    FewEntries(b, t);
  }

  lemma Counted(b: BootSector, lim: Limits, c: nat)
    requires BpbOk(b) && b.HasTable() && FirstSector(b, b.TableLength()) == b.DataStart() <= b.TotalSectors()
    requires CountKept(b, TableType(b, lim)) && c >= 2
    ensures c < TotalClusters(b, lim) + 2 <==> OnVolume(b, TableType(b, lim), b.TableLength(), b.TotalSectors(), c)
  {
    hide PowerOfTwo, CalcFatClusters, SectorClusters, TableType, TotalClusters, OnVolume;
    TotalIs(b, lim);
    ThereIs(b, TableType(b, lim), c);
    SameSectors(b, TableType(b, lim), c);
  }

  lemma Kinds(b: BootSector, lim: Limits)
    requires BpbOk(b) && b.HasTable()
    ensures TableType(b, lim) == Fat32 <==> b.fatLength == 0
    ensures b.IsFat32() <==> b.fatLength == 0
  {
    hide SectorClusters;
  }

  lemma SameSectors(b: BootSector, t: FatType, c: nat)
    requires BpbOk(b) && c >= 2
    ensures OnVolume(b, t, b.TableLength(), b.TotalSectors(), c) <==> ClusterThere(b, t, c)
  {
    hide PowerOfTwo;
    Distribute(c - 2, 1, b.secPerClus);
  }

  lemma FewEntries(b: BootSector, t: FatType)
    requires BpbOk(b) && b.HasTable() && (t == Fat32 <==> b.fatLength == 0)
    requires b.fatLength == 0 ==> b.fat32Length * (b.sectorSize / 4) - 2 < 0x1_0000_0000
    ensures CountKept(b, t)
  {
    hide PowerOfTwo, SectorClusters;
    if t == Fat32 {
      assert b.sectorSize * 8 / 32 == b.sectorSize / 4;
    } else if t == Fat12 {
      SmallTable(b.sectorSize, b.fatLength);
    } else {
      Mono(b.sectorSize * 8 / 16, 4096 * 8 / 16, b.fatLength);
    }
  }

  /** The bounds of `linux/msdos_fs.h`. */
  const LIMITS := Limits(0xFF4, 0xFFF4, 0x0FFF_FFF6)

  /** A floppy of 1.44 MB, and disks with the 32-bit count of sectors, of a table of 16 and of 32 bits. */
  const FLOPPY := BootSector(512, 1, 1, 2, 224, 2880, 0, 9, 0, true)
  const SMALL_DISK := BootSector(512, 4, 1, 2, 512, 0, 100_000, 98, 0, true)
  const LARGE_DISK := BootSector(512, 8, 32, 2, 0, 0, 1_000_000, 0, 977, true)

  lemma FloppyMounted()
    ensures FillSuper(FLOPPY, 512, LIMITS) == Mounted(Layout(Fat12, 512, 1, 9, 2, 2849, 1, 19, 14, 33))
  {
    assert SectorClusters(FLOPPY) == 2847;
  }

  lemma SmallDiskMounted()
    ensures FillSuper(SMALL_DISK, 512, LIMITS) == Mounted(Layout(Fat16, 512, 1, 98, 2, 24944, 4, 197, 32, 229))
  {
    assert SectorClusters(SMALL_DISK) == 24942;
  }

  lemma LargeDiskMounted()
    ensures FillSuper(LARGE_DISK, 512, LIMITS) == Mounted(Layout(Fat32, 512, 32, 977, 2, 124753, 8, 1986, 0, 1986))
  {
    assert SectorClusters(LARGE_DISK) == 124751;
  }

  const LONG_TABLE := BootSector(512, 1, 1, 1, 0, 0, 0x200_03EA, 0, 0x200_0001, true)

  /** A table of just over 2^32 entries: of a thousand clusters all behind the 126th are left out. */
  lemma LostClusters(lim: Limits)
    requires lim.fat32 >= 126
    ensures FillSuper(LONG_TABLE, 512, lim).Mounted? && FillSuper(LONG_TABLE, 512, lim).g.maxCluster == 128
    ensures forall c :: 128 <= c < 1002 ==> ClusterThere(LONG_TABLE, Fat32, c)
  {
    assert LONG_TABLE.DataStart() == 0x200_0002 && SectorClusters(LONG_TABLE) == 1000;
    assert CalcFatClusters(Fat32, 512, 0x200_0001) == U32 + 128;
  }

  /** A boot sector without any table is accepted when its sector count gives few enough clusters;
      the table then has no entry for any of them. */
  lemma NoTableMounted(b: BootSector, device: nat, lim: Limits)
    requires BpbOk(b) && device <= b.sectorSize && b.dirEntries % (b.sectorSize / 32) == 0
    requires !b.HasTable() && lim.fat12 < U32 - 2 && lim.fat16 < U32 - 2
    ensures FillSuper(b, device, lim).Mounted? <==> SectorClusters(b) <= lim.Of(TableType(b, lim))
    ensures FillSuper(b, device, lim).Mounted? ==>
      var g := FillSuper(b, device, lim).g;
      g.maxCluster == SectorClusters(b) + FAT_START_ENT && g.TableBytes() == 0 && !g.Valid()
  {
    hide PowerOfTwo, SectorClusters;
    assert CalcFatClusters(TableType(b, lim), b.sectorSize, 0) == 0;
  }

  /** A sector count that does not reach the first cluster wraps, and only the table bounds the number
      of clusters: the boot sector is accepted exactly if the table is small enough, and then all
      clusters lie past the last sector counted. */
  lemma FewSectorsMounted(b: BootSector, device: nat, lim: Limits)
    requires BpbOk(b) && device <= b.sectorSize && b.dirEntries % (b.sectorSize / 32) == 0
    requires b.HasTable() && 0 < b.DataStart() - b.TotalSectors() <= HALF && lim.fat12 < HALF
    requires CalcFatClusters(TableType(b, lim), b.sectorSize, b.TableLength()) <= HALF
    ensures TableType(b, lim) == if b.IsFat32() then Fat32 else Fat16
    ensures FillSuper(b, device, lim).Mounted?
      <==> CalcFatClusters(TableType(b, lim), b.sectorSize, b.TableLength()) - FAT_START_ENT
             <= lim.Of(TableType(b, lim))
    ensures FillSuper(b, device, lim).Mounted? ==>
      var g := FillSuper(b, device, lim).g;
      && g.maxCluster == CalcFatClusters(TableType(b, lim), b.sectorSize, b.TableLength())
      && ClusterBlock(g, FAT_START_ENT) > b.TotalSectors()
  {
    hide PowerOfTwo, CalcFatClusters, TableType, TotalClusters;
    FewSectorsCount(b, lim);
  }

  lemma FewSectorsCount(b: BootSector, lim: Limits)
    requires BpbOk(b) && b.HasTable() && 0 < b.DataStart() - b.TotalSectors() <= HALF && lim.fat12 < HALF
    requires CalcFatClusters(TableType(b, lim), b.sectorSize, b.TableLength()) <= HALF
    ensures TableType(b, lim) == if b.IsFat32() then Fat32 else Fat16
    ensures TotalClusters(b, lim) == CalcFatClusters(TableType(b, lim), b.sectorSize, b.TableLength()) - FAT_START_ENT
  {
    hide PowerOfTwo, CalcFatClusters, SectorClusters;
    SectorMultiple(b.sectorSize);
    RoomyTable(TableType(b, lim), b.sectorSize, b.TableLength());
    SectorsWrap(b);
  }

  lemma SectorsWrap(b: BootSector)
    requires BpbOk(b) && 0 < b.DataStart() - b.TotalSectors() <= HALF
    ensures SectorClusters(b) >= HALF
  {
    hide PowerOfTwo;
    PowerDivides(b.secPerClus);
    DivSplit(U32, b.secPerClus);
    var q: int := U32 / b.secPerClus;
    if q <= 0 {
      Mono(q, 0, b.secPerClus);
    }
    WrappedCount(b.DataStart() - b.TotalSectors(), b.secPerClus, q);
  }

  const HALF := 0x8000_0000

  lemma PowerDivides(n: nat)
    requires PowerOfTwo(n) && n < 256
    ensures 1 <= n && U32 % n == 0
  {
    assert n > 1 ==> PowerOfTwo(n / 2);
    if n >= 8 {
      Eighth(n);
      if n / 8 >= 8 {
        Eighth(n / 8);
      }
    }
  }

  lemma WholePart(w: nat, q: nat, m: int, short: int, spc: nat)
    requires q * spc == w && 1 <= q && 1 <= m <= w && 0 <= m * spc - short < spc
    ensures (w * w - short) / spc == w * q - m
  {
    var n := w * q - m;
    Mono(1, q, w);
    Distribute(w * q, -m, spc);
    assert w * q * spc == w * (q * spc);
    DivOf(n, m * spc - short, spc);
  }

  lemma RoundedUp(short: int, spc: nat) returns (m: int)
    requires 0 < short && 1 <= spc
    ensures 1 <= m <= short && 0 <= m * spc - short < spc
  {
    m := CeilDiv(short, spc);
    DivSplit(short + (spc - 1), spc);
    CeilDivChar(short, spc, short);
    Mono(1, spc, short);
  }

  lemma JustBelow(w: nat, q: nat, m: int)
    requires 1 <= q && 1 <= m <= w
    ensures (w * q - m) % w == w - m || m == w
  {
    Distribute(q - 1, 1, w);
    if m < w {
      DivOf(q - 1, w - m, w);
    }
  }

  /** The wrapped count is far above what any table has. */
  lemma WrappedCount(short: int, spc: nat, q: nat)
    requires 0 < short <= 0x8000_0000 && 1 <= spc < 256 && q * spc == 0x1_0000_0000
    ensures (-short) % U64 / spc % U32 >= HALF
  {
    var m := RoundedUp(short, spc);
    assert q == 0 ==> q * spc == 0;
    WholePart(0x1_0000_0000, q, m, short, spc);
    JustBelow(0x1_0000_0000, q, m);
    assert (-short) % U64 == 0x1_0000_0000_0000_0000 - short;
  }

  const SHORT_COUNT := BootSector(512, 1, 1, 2, 16, 2, 0, 1, 0, true)

  lemma FewSectors(lim: Limits)
    requires lim.fat12 < 0x1_0000 && lim.fat16 >= 254
    ensures FillSuper(SHORT_COUNT, 512, lim).Mounted? && FillSuper(SHORT_COUNT, 512, lim).g.maxCluster == 256
    ensures ClusterBlock(FillSuper(SHORT_COUNT, 512, lim).g, 2) > SHORT_COUNT.TotalSectors()
  {
    assert SectorClusters(SHORT_COUNT) == U32 - 2;
  }
}
