/** Where the tables lie on the volume: blocks, the copies of the table and how a write to
    one entry shows in blocks. All statements are about the volume's bytes as one sequence. */
module Layout {
  import opened Arithmetic
  import opened EntryCodec

  datatype Layout = Layout(
    ft: FatType, blockSize: nat, fatStart: nat, fatLength: nat, fats: nat, maxCluster: nat,
    secPerClus: nat, dirStart: nat, dirBlocks: nat, dataStart: nat)
  {
    /** First byte of the first copy of the table. */
    function Base(): nat { fatStart * blockSize }

    function TableBytes(): nat { fatLength * blockSize }

    function ClusterSize(): nat { blockSize * secPerClus }

    /** What mounting establishes (inode.c `fat_fill_super`). */
    predicate Valid() {
      && 512 <= blockSize && blockSize % 512 == 0
      && 1 <= fatStart && 1 <= fatLength && 1 <= fats && 1 <= secPerClus
      && FAT_START_ENT < maxCluster <= Bad(ft)
      && ByteOffset(ft, maxCluster - 1) + Width(ft) <= TableBytes()
      && dirStart == fatStart + fats * fatLength
      && dataStart == dirStart + dirBlocks
    }

    predicate Holds(d: seq<byte>) {
      (fatStart + fats * fatLength) * blockSize <= |d|
    }

    predicate TableBlock(b: nat) {
      fatStart <= b < fatStart + fatLength
    }
  }

  /** Where the last copy of the table ends. */
  function TablesEnd(g: Layout): nat { (g.fatStart + g.fats * g.fatLength) * g.blockSize }

  /** Byte `i` is as it was, unless it belongs to a copy of the table. */
  ghost predicate KeptAt(g: Layout, d: seq<byte>, d': seq<byte>, i: int) {
    0 <= i < |d| == |d'| && (d'[i] == d[i] || g.Base() <= i < TablesEnd(g))
  }

  /** The volume outside the tables is the same. */
  ghost predicate SameData(g: Layout, d: seq<byte>, d': seq<byte>) {
    |d| == |d'| && forall i {:trigger KeptAt(g, d, d', i)} :: 0 <= i < |d| ==> KeptAt(g, d, d', i)
  }

  lemma SameDataOn(g: Layout, d: seq<byte>, d': seq<byte>, d'': seq<byte>)
    requires SameData(g, d, d') && |d''| == |d'|
    requires forall i :: 0 <= i < |d'| && d''[i] != d'[i] ==> g.Base() <= i < TablesEnd(g)
    ensures SameData(g, d, d'')
  {
    forall i | 0 <= i < |d| ensures KeptAt(g, d, d'', i) {
      assert KeptAt(g, d, d', i);
    }
  }

  lemma NextBlock(g: Layout, b: nat)
    ensures (b + 1) * g.blockSize == b * g.blockSize + g.blockSize
  {
  }

  ghost predicate InBlock(g: Layout, b: nat, a: int) {
    b * g.blockSize <= a < b * g.blockSize + g.blockSize
  }

  // ----- block arithmetic -----------------------------------------------------------

  /** A byte lies in one block only. */
  lemma BlockUnique(g: Layout, x: nat, y: nat, a: int)
    requires InBlock(g, x, a) && InBlock(g, y, a)
    ensures x == y
  {
    if x < y {
      Mono(x + 1, y, g.blockSize);
    } else if y < x {
      Mono(y + 1, x, g.blockSize);
    }
  }

  /** Every block of every copy lies inside the volume. */
  lemma BlockInside(g: Layout, d: seq<byte>, b: nat)
    requires g.Holds(d) && b < g.fatStart + g.fats * g.fatLength
    ensures 0 <= b * g.blockSize <= b * g.blockSize + g.blockSize <= |d|
  {
    Mono(b + 1, g.fatStart + g.fats * g.fatLength, g.blockSize);
  }

  lemma CopyRange(g: Layout, b: nat, k: nat)
    requires g.Valid() && g.TableBlock(b) && k < g.fats
    ensures b + k * g.fatLength < g.fatStart + g.fats * g.fatLength
    ensures k >= 1 ==> b + k * g.fatLength >= g.fatStart + g.fatLength
  {
    Mono(k + 1, g.fats, g.fatLength);
    if k >= 1 {
      Mono(1, k, g.fatLength);
    }
  }

  /** Different (block, copy) pairs are different places. */
  lemma CopyDistinct(g: Layout, b: nat, k: nat, b': nat, k': nat)
    requires g.Valid() && g.TableBlock(b) && g.TableBlock(b')
    requires b + k * g.fatLength == b' + k' * g.fatLength
    ensures b == b' && k == k'
  {
    if k < k' {
      Mono(k + 1, k', g.fatLength);
    } else if k' < k {
      Mono(k' + 1, k, g.fatLength);
    }
  }

  /** Every block of every copy lies between the start of the first copy and the end of the last. */
  lemma CopyInside(g: Layout, b: nat, i: int)
    requires g.fatStart <= b < g.fatStart + g.fats * g.fatLength && InBlock(g, b, i)
    ensures g.Base() <= i < TablesEnd(g)
  {
    Mono(g.fatStart, b, g.blockSize);
    Mono(b + 1, g.fatStart + g.fats * g.fatLength, g.blockSize);
    Distribute(b, 1, g.blockSize);
  }

  lemma TableEndBound(g: Layout)
    requires g.Valid()
    ensures (g.fatStart + g.fatLength) * g.blockSize <= TablesEnd(g)
  {
    Mono(1, g.fats, g.fatLength);
    Mono(g.fatStart + g.fatLength, g.fatStart + g.fats * g.fatLength, g.blockSize);
  }

  /** Every byte of the table is in the volume. */
  lemma TableInside(g: Layout, d: seq<byte>)
    requires g.Valid() && g.Holds(d)
    ensures g.Base() + g.TableBytes() == (g.fatStart + g.fatLength) * g.blockSize <= |d|
  {
    Mono(g.fatStart + g.fatLength, g.fatStart + g.fats * g.fatLength, g.blockSize) by {
      Mono(1, g.fats, g.fatLength);
    }
  }

  lemma OffsetMono(g: Layout, e: nat)
    requires g.Valid() && e < g.maxCluster
    ensures ByteOffset(g.ft, e) + Width(g.ft) <= g.TableBytes()
  {
  }

  lemma EntryFits(g: Layout, d: seq<byte>, e: nat)
    requires g.Valid() && g.Holds(d) && e < g.maxCluster
    ensures Fits(g.ft, d, g.Base(), e)
  {
    TableInside(g, d);
    OffsetMono(g, e);
  }

  // ----- ent_blocknr ----------------------------------------------------------------

  function Offset(g: Layout, e: nat): nat
    requires g.blockSize > 0
  {
    ByteOffset(g.ft, e) % g.blockSize
  }

  function BlockNr(g: Layout, e: nat): nat
    requires g.blockSize > 0
  {
    g.fatStart + ByteOffset(g.ft, e) / g.blockSize
  }

  lemma WholeOffsets(g: Layout, e: nat)
    requires g.Valid()
    ensures g.blockSize >= 512 && g.blockSize % 512 == 0 && 2 <= Width(g.ft) <= 4
    ensures g.ft != Fat12 ==> (Width(g.ft) == 2 || Width(g.ft) == 4) && ByteOffset(g.ft, e) % Width(g.ft) == 0
  {
  }

  /** Splitting an entry's place into block and offset loses nothing, the block belongs to the
      first copy, and only a 12-bit entry can run over the end of its block. */
  lemma BlockNrSplit(g: Layout, e: nat)
    requires g.Valid() && e < g.maxCluster
    ensures BlockNr(g, e) * g.blockSize + Offset(g, e) == g.Base() + ByteOffset(g.ft, e)
    ensures InBlock(g, BlockNr(g, e), g.Base() + ByteOffset(g.ft, e))
    ensures g.TableBlock(BlockNr(g, e))
    ensures g.ft != Fat12 ==> Offset(g, e) + Width(g.ft) <= g.blockSize
    ensures g.ft == Fat12 && Offset(g, e) + 1 >= g.blockSize ==> g.TableBlock(BlockNr(g, e) + 1)
  {
    hide Layout.Valid, Width, ByteOffset;
    OffsetMono(g, e);
    WholeOffsets(g, e);
    SplitInTable(ByteOffset(g.ft, e), g.blockSize, g.fatStart, g.fatLength);
    if g.ft != Fat12 {
      Aligned(ByteOffset(g.ft, e), g.blockSize, Width(g.ft));
    }
  }

  lemma SplitInTable(n: nat, b: nat, start: nat, len: nat)
    requires b > 0 && n + 2 <= len * b
    ensures n / b >= 0 && (start + n / b) * b + n % b == start * b + n && 0 <= n % b < b
    ensures n / b < len
    ensures n % b + 1 >= b ==> n / b + 1 < len
  {
    var q := n / b;
    DivSplit(n, b);
    Distribute(start, q, b);
    if q >= len {
      Mono(len, q, b);
    }
    if n % b + 1 >= b && q + 1 >= len {
      Mono(len, q + 1, b);
      Distribute(q, 1, b);
    }
  }

  lemma Aligned(n: nat, b: nat, w: nat)
    requires b > 0 && b % 512 == 0 && (w == 2 || w == 4) && n % w == 0
    ensures n % b + w <= b
  {
    DivSplit(n, b);
    RoomBehind(n, b, w, n / b, n % b);
  }

  lemma RoomBehind(n: nat, b: nat, w: nat, q: int, r: nat)
    requires b % 512 == 0 && (w == 2 || w == 4) && n % w == 0 && n == q * b + r && r < b
    ensures r + w <= b
  {
    var m := b / 512;
    Scale(q, m, b);
    if w == 2 {
      Aligned2(n, q * m, r, m);
    } else {
      Aligned4(n, q * m, r, m);
    }
  }

  lemma Scale(x: int, m: nat, b: nat)
    requires b == 512 * m
    ensures x * b == 512 * (x * m)
  {
  }

  lemma Aligned2(n: nat, x: int, r: nat, m: nat)
    requires n % 2 == 0 && n == 512 * x + r && r < 512 * m
    ensures r + 2 <= 512 * m
  {
    assert r == 2 * (n / 2 - 256 * x);
  }

  lemma Aligned4(n: nat, x: int, r: nat, m: nat)
    requires n % 4 == 0 && n == 512 * x + r && r < 512 * m
    ensures r + 4 <= 512 * m
  {
    assert r == 4 * (n / 4 - 128 * x);
  }

  // ----- decoded table --------------------------------------------------------------

  /** `fat` is what the first copy of the table says. */
  ghost predicate Decodes(g: Layout, d: seq<byte>, fat: seq<int>) {
    && |fat| == g.maxCluster
    && forall e {:trigger Entry(g.ft, d, g.Base(), e)} :: 0 <= e < g.maxCluster ==>
      Fits(g.ft, d, g.Base(), e) && fat[e] == Entry(g.ft, d, g.Base(), e)
  }

  lemma DecodedEntry(g: Layout, d: seq<byte>, fat: seq<int>, e: nat)
    requires g.Valid() && g.Holds(d) && Decodes(g, d, fat) && e < g.maxCluster
    ensures Fits(g.ft, d, g.Base(), e) && fat[e] == Entry(g.ft, d, g.Base(), e)
  {
    EntryFits(g, d, e);
    assert fat[e] == Entry(g.ft, d, g.Base(), e);
  }

  /** A value the driver may store and read back unchanged. */
  ghost predicate Storable(g: Layout, v: int) {
    v == FAT_ENT_EOF || 0 <= v < Bad(g.ft)
  }

  /** Writing one entry changes the decoded table at that entry only. */
  lemma StoredDecodes(g: Layout, d: seq<byte>, fat: seq<int>, e: nat, v: int)
    requires g.Valid() && g.Holds(d) && Decodes(g, d, fat)
    requires e < g.maxCluster && Storable(g, v)
    ensures Fits(g.ft, d, g.Base(), e)
    ensures Decodes(g, Stored(g.ft, d, g.Base(), e, v), fat[e := v])
  {
    DecodedEntry(g, d, fat, e);
    var r := Stored(g.ft, d, g.Base(), e, v);
    PutGet(g.ft, d, g.Base(), e, v);
    forall x | 0 <= x < g.maxCluster
      ensures Fits(g.ft, r, g.Base(), x) && fat[e := v][x] == Entry(g.ft, r, g.Base(), x)
    {
      DecodedEntry(g, d, fat, x);
      if x != e {
        PutOther(g.ft, d, g.Base(), e, v, x);
      }
    }
  }

  /** Whatever the driver puts into an entry, it reads back: EOF, a free mark or a cluster number. */
  lemma PutReadsBack(g: Layout, d: seq<byte>, e: nat, v: int)
    requires g.Valid() && g.Holds(d) && e < g.maxCluster
    requires v == FAT_ENT_EOF || v == FAT_ENT_FREE || FAT_START_ENT <= v < g.maxCluster
    ensures Fits(g.ft, d, g.Base(), e) && Putable(g.ft, v) && |Stored(g.ft, d, g.Base(), e, v)| == |d|
    ensures Entry(g.ft, Stored(g.ft, d, g.Base(), e, v), g.Base(), e) == v
  {
    EntryFits(g, d, e);
    PutGet(g.ft, d, g.Base(), e, v);
  }

  /** The decoded table depends on the bytes of the first copy only. */
  lemma DecodesFrame(g: Layout, d: seq<byte>, d': seq<byte>, fat: seq<int>)
    requires g.Valid() && g.Holds(d) && Decodes(g, d, fat) && |d'| == |d|
    requires forall i :: g.Base() <= i < (g.fatStart + g.fatLength) * g.blockSize && i < |d| ==> d'[i] == d[i]
    ensures Decodes(g, d', fat)
  {
    TableInside(g, d);
    forall x | 0 <= x < g.maxCluster
      ensures Fits(g.ft, d', g.Base(), x) && fat[x] == Entry(g.ft, d', g.Base(), x)
    {
      OffsetMono(g, x);
      DecodedEntry(g, d, fat, x);
    }
  }

  /** `d` with `b` written over it at byte `at`; what would lie beyond its end is lost. */
  function Overwritten(d: seq<byte>, at: nat, b: seq<byte>): (r: seq<byte>)
    ensures |r| == |d| && forall i :: 0 <= i < |d| ==> r[i] == if at <= i < at + |b| then b[i - at] else d[i]
  {
    seq(|d|, i requires 0 <= i < |d| => if at <= i < at + |b| then b[i - at] else d[i])
  }

  // ----- copies of the table --------------------------------------------------------

  /** Block `b` of the table is the same in all copies. */
  ghost predicate Mirrored(g: Layout, d: seq<byte>, b: nat) {
    forall k, i :: 1 <= k < g.fats && 0 <= i < g.blockSize ==> SameAt(g, d, b, k, i)
  }

  ghost predicate SameAt(g: Layout, d: seq<byte>, b: nat, k: nat, i: nat) {
    && (b + k * g.fatLength) * g.blockSize + i < |d| && b * g.blockSize + i < |d|
    && d[(b + k * g.fatLength) * g.blockSize + i] == d[b * g.blockSize + i]
  }

  ghost predicate MirroredExcept(g: Layout, d: seq<byte>, stale: set<nat>) {
    forall b :: g.TableBlock(b) && b !in stale ==> Mirrored(g, d, b)
  }

  /** Writing behind the tables leaves the copies as they are. */
  lemma MirroredFrame(g: Layout, d: seq<byte>, d': seq<byte>, stale: set<nat>)
    requires g.Valid() && g.Holds(d) && MirroredExcept(g, d, stale) && |d'| == |d|
    requires forall i :: 0 <= i < TablesEnd(g) && i < |d| ==> d'[i] == d[i]
    ensures MirroredExcept(g, d', stale)
  {
    forall b: nat, k, i | g.TableBlock(b) && b !in stale && 1 <= k < g.fats && 0 <= i < g.blockSize
      ensures SameAt(g, d', b, k, i)
    {
      assert Mirrored(g, d, b);
      assert SameAt(g, d, b, k, i);
      CopyRange(g, b, k);
      CopyInside(g, b + k * g.fatLength, (b + k * g.fatLength) * g.blockSize + i);
      CopyRange(g, b, 0);
      CopyInside(g, b, b * g.blockSize + i);
    }
  }

  /** A change confined to one block of the first copy can only make that block stale. */
  lemma WriteMakesStale(g: Layout, d: seq<byte>, d': seq<byte>, stale: set<nat>, blocks: set<nat>)
    requires g.Valid() && g.Holds(d) && |d'| == |d| && MirroredExcept(g, d, stale)
    requires forall b :: b in blocks ==> g.TableBlock(b)
    requires forall i :: 0 <= i < |d| && d'[i] != d[i] ==> exists b :: b in blocks && InBlock(g, b, i)
    ensures MirroredExcept(g, d', stale + blocks)
  {
    forall b: nat | g.TableBlock(b) && b !in stale + blocks ensures Mirrored(g, d', b) {
      forall k, i | 1 <= k < g.fats && 0 <= i < g.blockSize ensures SameAt(g, d', b, k, i) {
        assert SameAt(g, d, b, k, i);
        var x := b * g.blockSize + i;
        var y := (b + k * g.fatLength) * g.blockSize + i;
        if d'[x] != d[x] {
          var c :| c in blocks && InBlock(g, c, x);
          BlockUnique(g, b, c, x);
        }
        if d'[y] != d[y] {
          var c :| c in blocks && InBlock(g, c, y);
          CopyRange(g, b, k);
          BlockUnique(g, b + k * g.fatLength, c, y);
        }
      }
    }
  }

  /** The bytes after copying block `src` over block `dst`. */
  ghost predicate BlockCopied(g: Layout, d: seq<byte>, d': seq<byte>, src: nat, dst: nat) {
    && |d'| == |d|
    && (src + 1) * g.blockSize <= |d| && (dst + 1) * g.blockSize <= |d|
    && (forall i :: 0 <= i < g.blockSize ==> Moved(g, d, d', src, dst, i))
    && (forall j :: 0 <= j < |d| && !InBlock(g, dst, j) ==> d'[j] == d[j])
  }

  ghost predicate Moved(g: Layout, d: seq<byte>, d': seq<byte>, src: nat, dst: nat, i: nat) {
    && src * g.blockSize + i < |d| && dst * g.blockSize + i < |d'|
    && d'[dst * g.blockSize + i] == d[src * g.blockSize + i]
  }

  /** `n` bytes of `d` from `from` on now stand at `to` as well. */
  ghost predicate BytesCopied(d: seq<byte>, d': seq<byte>, from: nat, to: nat, n: nat) {
    && |d'| == |d| && from + n <= |d| && to + n <= |d|
    && forall j :: 0 <= j < |d| ==> ByteCopied(d, d', from, to, n, j)
  }

  ghost predicate ByteCopied(d: seq<byte>, d': seq<byte>, from: nat, to: nat, n: nat, j: nat) {
    && j < |d| == |d'| && from + n <= |d|
    && d'[j] == if to <= j < to + n then d[from + (j - to)] else d[j]
  }

  lemma OneMoved(
    g: Layout, d: seq<byte>, d': seq<byte>, src: nat, dst: nat, i: nat, from: nat, to: nat)
    requires from == src * g.blockSize && to == dst * g.blockSize && i < g.blockSize
    requires BytesCopied(d, d', from, to, g.blockSize)
    ensures Moved(g, d, d', src, dst, i)
  {
    var j := to + i;
    assert ByteCopied(d, d', from, to, g.blockSize, j);
  }

  lemma BlockIs(g: Layout, b: nat, a: int, at: nat)
    requires at == b * g.blockSize
    ensures InBlock(g, b, a) <==> at <= a < at + g.blockSize
  {
  }

  lemma CopiedIs(g: Layout, d: seq<byte>, d': seq<byte>, src: nat, dst: nat, from: nat, to: nat)
    requires (src + 1) * g.blockSize <= |d| && (dst + 1) * g.blockSize <= |d|
    requires from == src * g.blockSize && to == dst * g.blockSize
    requires from + g.blockSize <= |d| && to + g.blockSize <= |d| && BytesCopied(d, d', from, to, g.blockSize)
    ensures BlockCopied(g, d, d', src, dst)
  {
    hide Moved, InBlock;
    assert |d'| == |d|;
    forall i | 0 <= i < g.blockSize ensures Moved(g, d, d', src, dst, i) {
      OneMoved(g, d, d', src, dst, i, from, to);
    }
    forall j | 0 <= j < |d| && !InBlock(g, dst, j) ensures d'[j] == d[j] {
      BlockIs(g, dst, j, to);
      assert ByteCopied(d, d', from, to, g.blockSize, j);
    }
  }

  /** Copying table block `b` to copy `k` settles that copy of `b`. */
  lemma CopySettles(g: Layout, d: seq<byte>, d': seq<byte>, b: nat, k: nat, i: nat)
    requires g.Valid() && g.Holds(d) && g.TableBlock(b) && 1 <= k < g.fats && i < g.blockSize
    requires BlockCopied(g, d, d', b, b + k * g.fatLength)
    ensures SameAt(g, d', b, k, i)
  {
    var dst := b + k * g.fatLength;
    assert dst != b by { CopyRange(g, b, k); }
    NotInOther(g, b, dst, i);
    assert Moved(g, d, d', b, dst, i);
  }

  /** ... and disturbs no other copy of any block. */
  lemma CopyKeeps(g: Layout, d: seq<byte>, d': seq<byte>, b: nat, k: nat, x: nat, m: nat, i: nat)
    requires g.Valid() && g.Holds(d) && g.TableBlock(b) && 1 <= k < g.fats && i < g.blockSize
    requires BlockCopied(g, d, d', b, b + k * g.fatLength)
    requires g.TableBlock(x) && 1 <= m < g.fats && (x != b || m != k) && SameAt(g, d, x, m, i)
    ensures SameAt(g, d', x, m, i)
  {
    hide Layout.Valid, Layout.TableBlock, BlockCopied, InBlock;
    var dst := b + k * g.fatLength;
    OtherBlocks(g, b, k, x, m);
    NotCopied(g, d, d', b, dst, x, i);
    NotCopied(g, d, d', b, dst, x + m * g.fatLength, i);
  }

  lemma OtherBlocks(g: Layout, b: nat, k: nat, x: nat, m: nat)
    requires g.Valid() && g.TableBlock(b) && 1 <= k < g.fats
    requires g.TableBlock(x) && 1 <= m < g.fats && (x != b || m != k)
    ensures b + k * g.fatLength != x && b + k * g.fatLength != x + m * g.fatLength
  {
    hide Layout.Valid;
    CopyRange(g, b, k);
    if b + k * g.fatLength == x + m * g.fatLength {
      CopyDistinct(g, x, m, b, k);
    }
  }

  lemma NotCopied(g: Layout, d: seq<byte>, d': seq<byte>, src: nat, dst: nat, x: nat, i: nat)
    requires BlockCopied(g, d, d', src, dst) && dst != x && i < g.blockSize && x * g.blockSize + i < |d|
    ensures |d'| == |d| && d'[x * g.blockSize + i] == d[x * g.blockSize + i]
  {
    NotInOther(g, x, dst, i);
  }

  lemma NotInOther(g: Layout, x: nat, y: nat, i: nat)
    requires x != y && i < g.blockSize
    ensures !InBlock(g, y, x * g.blockSize + i)
  {
    if InBlock(g, y, x * g.blockSize + i) {
      BlockUnique(g, x, y, x * g.blockSize + i);
    }
  }

  /** Everything up to the end of the first copy is the same. */
  ghost predicate FirstKept(g: Layout, d: seq<byte>, d': seq<byte>) {
    |d'| == |d| && forall i :: 0 <= i < |d| && i < (g.fatStart + g.fatLength) * g.blockSize ==> d'[i] == d[i]
  }

  lemma FirstKeptOn(g: Layout, d: seq<byte>, d': seq<byte>, d'': seq<byte>)
    requires FirstKept(g, d, d') && FirstKept(g, d', d'')
    ensures FirstKept(g, d, d'')
  {
  }

  /** The first copy is not touched by writing to another one. */
  lemma CopyKeepsTable(g: Layout, d: seq<byte>, d': seq<byte>, b: nat, k: nat, fat: seq<int>)
    requires g.Valid() && g.Holds(d) && g.TableBlock(b) && 1 <= k < g.fats
    requires BlockCopied(g, d, d', b, b + k * g.fatLength) && Decodes(g, d, fat)
    ensures Decodes(g, d', fat) && FirstKept(g, d, d')
  {
    CopyRange(g, b, k);
    Mono(g.fatStart + g.fatLength, b + k * g.fatLength, g.blockSize);
    DecodesFrame(g, d, d', fat);
  }

  /** Half-way through mirroring the blocks `bhs`: copies below `copy` are done for all of them,
      copy number `copy` for the first `n`, and what agreed in `d0` still agrees. */
  ghost predicate MirrorProgress(g: Layout, d0: seq<byte>, d: seq<byte>, bhs: seq<nat>, copy: nat, n: nat)
    requires n <= |bhs|
  {
    forall x: nat, m: nat, i: nat ::
      (g.TableBlock(x) && 1 <= m < g.fats && i < g.blockSize && ToAgree(g, d0, bhs, copy, n, x, m, i)
       ==> SameAt(g, d, x, m, i))
  }

  ghost predicate ToAgree(g: Layout, d0: seq<byte>, bhs: seq<nat>, copy: nat, n: nat, x: nat, m: nat, i: nat)
    requires n <= |bhs|
  {
    SameAt(g, d0, x, m, i) || (x in bhs && m < copy) || (x in bhs[..n] && m == copy)
  }

  lemma MirrorStep(g: Layout, d0: seq<byte>, d: seq<byte>, d': seq<byte>, bhs: seq<nat>, copy: nat, n: nat)
    requires g.Valid() && g.Holds(d) && 1 <= copy < g.fats && n < |bhs| && g.TableBlock(bhs[n])
    requires MirrorProgress(g, d0, d, bhs, copy, n)
    requires BlockCopied(g, d, d', bhs[n], bhs[n] + copy * g.fatLength)
    ensures MirrorProgress(g, d0, d', bhs, copy, n + 1)
  {
    forall x: nat, m: nat, i: nat | g.TableBlock(x) && 1 <= m < g.fats && i < g.blockSize
      && ToAgree(g, d0, bhs, copy, n + 1, x, m, i)
      ensures SameAt(g, d', x, m, i)
    {
      if x == bhs[n] && m == copy {
        CopySettles(g, d, d', bhs[n], copy, i);
      } else {
        assert x in bhs[..n + 1] ==> x in bhs[..n] || x == bhs[n];
        assert ToAgree(g, d0, bhs, copy, n, x, m, i);
        CopyKeeps(g, d, d', bhs[n], copy, x, m, i);
      }
    }
  }

  lemma MirrorStart(g: Layout, d0: seq<byte>, bhs: seq<nat>)
    ensures MirrorProgress(g, d0, d0, bhs, 1, 0)
  {
  }

  lemma NextCopy(g: Layout, d0: seq<byte>, d: seq<byte>, bhs: seq<nat>, copy: nat)
    requires MirrorProgress(g, d0, d, bhs, copy, |bhs|)
    ensures MirrorProgress(g, d0, d, bhs, copy + 1, 0)
  {
    assert bhs[..|bhs|] == bhs;
    forall x: nat, m: nat, i: nat | ToAgree(g, d0, bhs, copy + 1, 0, x, m, i)
      ensures ToAgree(g, d0, bhs, copy, |bhs|, x, m, i)
    {
    }
  }

  /** When all copies are done, none of `bhs` is stale any more. */
  lemma MirrorDone(g: Layout, d0: seq<byte>, d: seq<byte>, bhs: seq<nat>, stale: set<nat>)
    requires g.Valid() && MirroredExcept(g, d0, stale)
    requires MirrorProgress(g, d0, d, bhs, g.fats, 0)
    ensures MirroredExcept(g, d, stale - (set b | b in bhs))
  {
    forall b: nat | g.TableBlock(b) && b !in stale - (set x | x in bhs) ensures Mirrored(g, d, b) {
      forall k, i | 1 <= k < g.fats && 0 <= i < g.blockSize ensures SameAt(g, d, b, k, i) {
        if b !in bhs {
          assert Mirrored(g, d0, b);
          assert SameAt(g, d0, b, k, i);
        }
        assert ToAgree(g, d0, bhs, g.fats, 0, b, k, i);
      }
    }
  }

  // ----- data blocks ----------------------------------------------------------------

  /** `fat_clus_to_blknr`. */
  function ClusterBlock(g: Layout, c: int): int {
    (c - FAT_START_ENT) * g.secPerClus + g.dataStart
  }

  /** Different (cluster, sector) pairs are different blocks, all past the tables and the root. */
  lemma ClusterBlockInjective(g: Layout, c: int, s: nat, c': int, s': nat)
    requires g.Valid() && c >= FAT_START_ENT && c' >= FAT_START_ENT
    requires s < g.secPerClus && s' < g.secPerClus
    ensures ClusterBlock(g, c) + s >= g.dataStart
    ensures ClusterBlock(g, c) + s == ClusterBlock(g, c') + s' ==> c == c' && s == s'
  {
    Mono(0, c - FAT_START_ENT, g.secPerClus);
    if c < c' {
      Mono(c - FAT_START_ENT + 1, c' - FAT_START_ENT, g.secPerClus);
    } else if c' < c {
      Mono(c' - FAT_START_ENT + 1, c - FAT_START_ENT, g.secPerClus);
    }
  }
}
