/** The file allocation table of a mounted volume (fatent.c): entries are read and written in
    place in the volume's bytes through block buffers. A buffer is named by its block number
    and `held` counts the references taken on each. */
module FatVolume {
  import opened Arithmetic
  import opened EntryCodec
  import opened FatChain
  import opened Layout

  const MAX_BUF_PER_PAGE := 8

  /** `struct fat_entry`: pointers are byte positions on the volume, NULL is -1. */
  datatype FatEntry = FatEntry(entry: int, p0: int, p1: int, bhs: seq<nat>)

  /** What reading or changing the table answers; IoError is -EIO, NoSpace is -ENOSPC. */
  datatype Status = Ok | IoError | NoSpace

  function InitEntry(): FatEntry { FatEntry(0, -1, -1, []) }

  function SetEntry(fe: FatEntry, entry: int): FatEntry { FatEntry(entry, -1, -1, fe.bhs) }

  ghost function SetOf(s: seq<nat>): set<nat> { set x | x in s }

  /** `fe` points at the bytes of its entry, and its buffers are the blocks that hold them. */
  ghost predicate Points(g: Layout, fe: FatEntry) {
    match fe
    case FatEntry(entry, p0, p1, bhs) =>
      && FAT_START_ENT <= entry < g.maxCluster
      && p0 == g.Base() + ByteOffset(g.ft, entry)
      && 1 <= |bhs| <= 2
      && InBlock(g, bhs[0], p0) && g.TableBlock(bhs[0])
      && (g.ft == Fat12 ==> p1 == p0 + 1)
      && (g.ft != Fat12 ==> |bhs| == 1)
      && (if |bhs| == 1 then InBlock(g, bhs[0], p0 + Width(g.ft) - 1)
          else bhs[1] == bhs[0] + 1 && g.TableBlock(bhs[1]) && p0 + 1 == bhs[1] * g.blockSize)
  }

  /** Freshly split into block and offset, the pointers point. */
  lemma SetPtrPoints(g: Layout, e: nat)
    requires g.Valid() && FAT_START_ENT <= e < g.maxCluster
    ensures var p := BlockNr(g, e) * g.blockSize + Offset(g, e);
      var one := g.ft != Fat12 || Offset(g, e) + 1 < g.blockSize;
      Points(g, FatEntry(e, p, if g.ft != Fat12 then -1 else if one then p + 1 else (BlockNr(g, e) + 1) * g.blockSize,
        if one then [BlockNr(g, e)] else [BlockNr(g, e), BlockNr(g, e) + 1]))
  {
    BlockNrSplit(g, e);
    NextBlock(g, BlockNr(g, e));
  }

  /** Within a block, entries of a 16- or 32-bit table start at multiples of their width. */
  lemma WholeEntries(g: Layout, fe: FatEntry)
    requires g.Valid() && Points(g, fe) && g.ft != Fat12
    ensures (fe.p0 - fe.bhs[0] * g.blockSize) % Width(g.ft) == 0 && g.blockSize % Width(g.ft) == 0
  {
    WholeEntriesInt(fe.bhs[0], g.fatStart, g.blockSize, Width(g.ft), fe.entry);
  }

  lemma WholeEntriesInt(x: nat, y: nat, b: nat, w: nat, e: nat)
    requires b % 512 == 0 && (w == 2 || w == 4)
    ensures b % w == 0 && (y * b + w * e - x * b) % w == 0
  {
    var m := b / 512;
    Scale(x, m, b);
    Scale(y, m, b);
    if w == 2 {
      WholeWords2(x * m, y * m, m, e);
    } else {
      WholeWords4(x * m, y * m, m, e);
    }
  }

  lemma PointsHere(g: Layout, fe: FatEntry)
    requires Points(g, fe) && g.ft != Fat12
    ensures |fe.bhs| == 1
  {
  }

  /** A whole entry before the last one of its block has the next one behind it. */
  lemma NextWhole(g: Layout, fe: FatEntry)
    requires g.Valid() && Points(g, fe) && g.ft != Fat12 && fe.entry + 1 < g.maxCluster && |fe.bhs| == 1
    requires fe.p0 < fe.bhs[0] * g.blockSize + (g.blockSize - Width(g.ft))
    ensures Points(g, FatEntry(fe.entry + 1, fe.p0 + Width(g.ft), -1, fe.bhs))
  {
    hide Layout.Valid;
    WholeEntries(g, fe);
    NextBlock(g, fe.bhs[0]);
    StepInside(fe.p0 - fe.bhs[0] * g.blockSize, g.blockSize, Width(g.ft));
  }

  lemma StepInside(o: int, b: int, w: nat)
    requires (w == 2 || w == 4) && o % w == 0 && b % w == 0 && o < b - w
    ensures o + w + w <= b
  {
  }

  lemma WholeWords2(x: int, y: int, m: int, e: nat)
    ensures 512 * m % 2 == 0 && (512 * y + 2 * e - 512 * x) % 2 == 0
  {
    Twice(256 * m);
    Twice(256 * y + e - 256 * x);
  }

  lemma Twice(k: int)
    ensures 2 * k % 2 == 0
  {
  }

  lemma WholeWords4(x: int, y: int, m: int, e: nat)
    ensures 512 * m % 4 == 0 && (512 * y + 4 * e - 512 * x) % 4 == 0
  {
    FourTimes(128 * m);
    FourTimes(128 * y + e - 128 * x);
  }

  lemma FourTimes(k: int)
    ensures 4 * k % 4 == 0
  {
  }

  lemma NibbleGet(b0: int, b1: int)
    requires 0 <= b0 < 256 && 0 <= b1 < 256
    ensures (b0 / 16 + 16 * b1) % 0x1000 == b0 / 16 + 16 * b1
    ensures (0x100 * b1 + b0) % 0x1000 == b0 + 0x100 * (b1 % 16)
  {
    assert 0x100 * b1 + b0 == 0x1000 * (b1 / 16) + (0x100 * (b1 % 16) + b0);
  }

  /** A store through pointing pointers changes bytes of the entry's own buffers only. */
  lemma StoredInBuffers(g: Layout, d: seq<byte>, fe: FatEntry, v: int)
    requires g.Valid() && g.Holds(d) && Points(g, fe) && Putable(g.ft, v)
    requires Fits(g.ft, d, g.Base(), fe.entry)
    ensures var r := Stored(g.ft, d, g.Base(), fe.entry, v);
      |r| == |d| && forall i :: 0 <= i < |d| && r[i] != d[i] ==> exists b :: b in SetOf(fe.bhs) && InBlock(g, b, i)
  {
    var r := Stored(g.ft, d, g.Base(), fe.entry, v);
    PutGet(g.ft, d, g.Base(), fe.entry, v);
    forall i | 0 <= i < |d| && r[i] != d[i] ensures exists b :: b in SetOf(fe.bhs) && InBlock(g, b, i) {
      if !(fe.p0 <= i < fe.p0 + Width(g.ft)) {
        PutFrame(g.ft, d, g.Base(), fe.entry, v, i);
      }
      var b := if |fe.bhs| == 1 || i == fe.p0 then fe.bhs[0] else fe.bhs[1];
      assert b in SetOf(fe.bhs) && InBlock(g, b, i);
    }
  }

  /** A store changes nothing outside the tables. */
  lemma StoredInTable(g: Layout, data: seq<byte>, d: seq<byte>, fe: FatEntry, v: int)
    requires g.Valid() && g.Holds(d) && Points(g, fe) && Putable(g.ft, v) && SameData(g, data, d)
    requires Fits(g.ft, d, g.Base(), fe.entry)
    ensures SameData(g, data, Stored(g.ft, d, g.Base(), fe.entry, v))
  {
    var r := Stored(g.ft, d, g.Base(), fe.entry, v);
    StoredInBuffers(g, d, fe, v);
    PointsBlocks(g, fe);
    forall i | 0 <= i < |d| && r[i] != d[i] ensures g.Base() <= i < TablesEnd(g) {
      var b :| b in SetOf(fe.bhs) && InBlock(g, b, i);
      Mono(1, g.fats, g.fatLength);
      CopyInside(g, b, i);
    }
    SameDataOn(g, data, d, r);
  }

  lemma CopiedInTable(g: Layout, data: seq<byte>, d: seq<byte>, d': seq<byte>, src: nat, dst: nat)
    requires SameData(g, data, d) && BlockCopied(g, d, d', src, dst)
    requires g.fatStart <= dst < g.fatStart + g.fats * g.fatLength
    ensures SameData(g, data, d')
  {
    forall i | 0 <= i < |d| && d'[i] != d[i] ensures g.Base() <= i < TablesEnd(g) {
      CopyInside(g, dst, i);
    }
    SameDataOn(g, data, d, d');
  }

  /** What one exchange of buffers leaves held covers the buffers now in use. */
  lemma Borrowed(before: multiset<nat>, after: multiset<nat>, given: seq<nat>, taken: seq<nat>)
    requires multiset(given) <= before && after + multiset(given) == before + multiset(taken)
    ensures multiset(taken) <= after
  {
    var g, t := multiset(given), multiset(taken);
    forall x ensures t[x] <= after[x] {
      assert (after + g)[x] == (before + t)[x];
      assert g[x] <= before[x];
    }
  }

  lemma Regroup(a: multiset<nat>, b: multiset<nat>, c: multiset<nat>, d: multiset<nat>, x: multiset<nat>)
    requires a + b == c + d
    ensures (a + x) + b == c + (d + x)
  {
    assert (a + x) + b == (a + b) + x;
    assert c + (d + x) == (c + d) + x;
  }

  lemma SetOfSnoc(s: seq<nat>, x: nat)
    ensures SetOf(s + [x]) == SetOf(s) + {x}
    ensures multiset(s + [x]) == multiset(s) + multiset{x}
  {
  }

  /** Buffers held that begin with the blocks of entry `e`. */
  predicate Serve(g: Layout, bhs: seq<nat>, e: nat)
    requires g.blockSize > 0
  {
    && |bhs| > 0 && bhs[0] == BlockNr(g, e)
    && (BlocksOf(g, e) == {bhs[0]} || (|bhs| > 1 && BlocksOf(g, e) == {bhs[0], bhs[1]} && bhs[1] == bhs[0] + 1))
  }

  /** The blocks that hold entry `e`. */
  function BlocksOf(g: Layout, e: nat): set<nat>
    requires g.blockSize > 0
  {
    if g.ft == Fat12 && Offset(g, e) + 1 >= g.blockSize
    then {BlockNr(g, e), BlockNr(g, e) + 1}
    else {BlockNr(g, e)}
  }

  /** The buffers of an entry hold all of the next one too, and, of a 12-bit entry in one block, not
      as its very last bytes. */
  ghost predicate Reaches(g: Layout, fe: FatEntry)
    requires g.blockSize > 0 && fe.entry >= 0
  {
    && BlocksOf(g, fe.entry + 1) <= SetOf(fe.bhs)
    && !(g.ft == Fat12 && |fe.bhs| == 1 && Offset(g, fe.entry + 1) + 2 == g.blockSize)
  }

  /** When the only buffer of an entry holds the next one: if that ends inside it. */
  lemma NextHeld(g: Layout, fe: FatEntry, at: int)
    requires g.Valid() && Points(g, fe) && |fe.bhs| == 1 && fe.entry + 1 < g.maxCluster
    requires at == g.Base() + ByteOffset(g.ft, fe.entry + 1)
    ensures BlocksOf(g, fe.entry + 1) <= SetOf(fe.bhs) <==> at + Width(g.ft) <= fe.bhs[0] * g.blockSize + g.blockSize
    ensures at + Width(g.ft) <= fe.bhs[0] * g.blockSize + g.blockSize
      ==> Offset(g, fe.entry + 1) == at - fe.bhs[0] * g.blockSize
  {
    hide Layout.Valid;
    var e, b := fe.entry + 1, fe.bhs[0];
    BlockNrSplit(g, e);
    NextBlock(g, b);
    assert SetOf(fe.bhs) == {b};
    if at + Width(g.ft) <= b * g.blockSize + g.blockSize {
      BlockUnique(g, b, BlockNr(g, e), at);
    } else {
      assert BlockNr(g, e) in BlocksOf(g, e);
    }
  }

  /** Of two buffers the second one holds the next entry. */
  lemma NextInSecond(g: Layout, fe: FatEntry)
    requires g.Valid() && Points(g, fe) && |fe.bhs| == 2 && fe.entry + 1 < g.maxCluster
    ensures Reaches(g, fe)
  {
    hide Layout.Valid;
    var e, b := fe.entry + 1, fe.bhs[1];
    var at := g.Base() + ByteOffset(g.ft, e);
    WholeOffsets(g, e);
    BlockNrSplit(g, e);
    NextBlock(g, fe.bhs[0]);
    NextBlock(g, b);
    assert at + 2 <= b * g.blockSize + g.blockSize;
    BlockUnique(g, b, BlockNr(g, e), at);
    assert b in SetOf(fe.bhs);
  }

  /** The test for a 12-bit entry in one block, and that for a whole entry. */
  lemma ReachTest(g: Layout, fe: FatEntry)
    requires g.Valid() && Points(g, fe) && |fe.bhs| == 1 && fe.entry + 1 < g.maxCluster
    ensures Reaches(g, fe) <==>
      if g.ft == Fat12 then fe.p1 + 1 + fe.entry % 2 < fe.bhs[0] * g.blockSize + (g.blockSize - 1)
      else fe.p0 < fe.bhs[0] * g.blockSize + (g.blockSize - Width(g.ft))
  {
    hide Layout.Valid, Offset, BlocksOf;
    NextHeld(g, fe, g.Base() + ByteOffset(g.ft, fe.entry + 1));
    if g.ft != Fat12 {
      WholeEntries(g, fe);
      var o := fe.p0 - fe.bhs[0] * g.blockSize;
      if o < g.blockSize - Width(g.ft) {
        StepInside(o, g.blockSize, Width(g.ft));
      }
    }
  }

  /** The blocks that hold the entries of a chain. */
  ghost function ChainBlocks(g: Layout, cl: seq<int>): set<nat>
    requires g.blockSize > 0 && forall i :: 0 <= i < |cl| ==> cl[i] >= 0
  {
    if |cl| == 0 then {} else ChainBlocks(g, cl[..|cl| - 1]) + BlocksOf(g, cl[|cl| - 1])
  }

  lemma ChainBlocksSnoc(g: Layout, cl: seq<int>, e: nat)
    requires g.blockSize > 0 && forall i :: 0 <= i < |cl| ==> cl[i] >= 0
    ensures ChainBlocks(g, cl + [e]) == ChainBlocks(g, cl) + BlocksOf(g, e)
  {
    assert (cl + [e])[..|cl|] == cl;
  }

  lemma {:induction false} ChainBlocksFresh(g: Layout, cl: seq<int>, stale: set<nat>)
    requires g.blockSize > 0 && forall i :: 0 <= i < |cl| ==> cl[i] >= 0
    requires forall i :: 0 <= i < |cl| ==> BlocksOf(g, cl[i]) !! stale
    ensures ChainBlocks(g, cl) !! stale
  {
    if |cl| > 0 {
      ChainBlocksFresh(g, cl[..|cl| - 1], stale);
    }
  }

  lemma PointsBlocks(g: Layout, fe: FatEntry)
    requires g.Valid() && Points(g, fe)
    ensures SetOf(fe.bhs) == BlocksOf(g, fe.entry)
    ensures Distinct(fe.bhs)
    ensures forall b :: b in SetOf(fe.bhs) ==> g.TableBlock(b)
  {
    BlockNrSplit(g, fe.entry);
    NextBlock(g, fe.bhs[0]);
    BlockUnique(g, fe.bhs[0], BlockNr(g, fe.entry), fe.p0);
  }

  /** Books of buffer references: what is held is what was held before the operation, plus the
      collection, plus the current entry's buffers. */
  ghost predicate Booked(now: multiset<nat>, before: multiset<nat>, bhs: seq<nat>, cur: seq<nat>) {
    now == before + multiset(bhs) + multiset(cur)
  }

  lemma BookedCurrent(now: multiset<nat>, before: multiset<nat>, bhs: seq<nat>, cur: seq<nat>,
      now': multiset<nat>, cur': seq<nat>)
    requires Booked(now, before, bhs, cur) && now' + multiset(cur) == now + multiset(cur')
    ensures Booked(now', before, bhs, cur')
  {
    var c, c', b := multiset(cur), multiset(cur'), multiset(bhs);
    forall x ensures now'[x] == (before + b + c')[x] {
      assert (now' + c)[x] == (now + c')[x];
    }
  }

  lemma BookedCollection(now: multiset<nat>, before: multiset<nat>, bhs: seq<nat>, cur: seq<nat>,
      now': multiset<nat>, bhs': seq<nat>)
    requires Booked(now, before, bhs, cur) && now' + multiset(bhs) == now + multiset(bhs')
    ensures Booked(now', before, bhs', cur)
  {
    var c, b, b' := multiset(cur), multiset(bhs), multiset(bhs');
    forall x ensures now'[x] == (before + b' + c)[x] {
      assert (now' + b)[x] == (now + b')[x];
    }
  }

  lemma BookedRelease(now: multiset<nat>, before: multiset<nat>, bhs: seq<nat>, cur: seq<nat>)
    requires Booked(now, before, bhs, cur)
    ensures multiset(bhs) <= now && multiset(cur) <= now
    ensures Booked(now - multiset(bhs), before, [], cur)
    ensures Booked(now - multiset(cur), before, bhs, [])
    ensures now - multiset(cur) - multiset(bhs) == before
  {
    var c, b := multiset(cur), multiset(bhs);
    assert now - b == before + multiset([]) + c;
    assert now - c == before + b + multiset([]);
  }

  /** A collection: different table blocks, at most MAX_BUF_PER_PAGE of them. */
  ghost predicate Collection(g: Layout, bhs: seq<nat>) {
    |bhs| <= MAX_BUF_PER_PAGE && Distinct(bhs) && forall b :: b in bhs ==> g.TableBlock(b)
  }

  /** Stale blocks of changed entries, and blocks newly stale, are all in the collection. */
  ghost predicate Settled(g: Layout, f0: seq<int>, f: seq<int>, stale0: set<nat>, stale: set<nat>, bhs: seq<nat>)
    requires g.blockSize > 0
  {
    && |f| == |f0| && stale <= stale0 + SetOf(bhs)
    && forall e {:trigger BlocksOf(g, e)} :: IsCluster(f, e) && f[e] != f0[e] ==> BlocksOf(g, e) * stale <= SetOf(bhs)
  }

  lemma SettledStep(g: Layout, f0: seq<int>, f: seq<int>, stale0: set<nat>, stale: set<nat>, bhs: seq<nat>,
      e: nat, v: int, stale': set<nat>, bhs': seq<nat>)
    requires g.blockSize > 0 && Settled(g, f0, f, stale0, stale, bhs) && e < |f|
    requires BlocksOf(g, e) <= SetOf(bhs') && stale' <= stale + SetOf(bhs')
    requires forall b :: b in SetOf(bhs) ==> b in SetOf(bhs') || b !in stale'
    ensures Settled(g, f0, f[e := v], stale0, stale', bhs')
  {
  }

  lemma CollectionGrows(g: Layout, bhs: seq<nat>, fe: FatEntry, bhs': seq<nat>)
    requires g.Valid() && Collection(g, bhs) && Points(g, fe)
    requires Distinct(bhs') && |bhs'| <= MAX_BUF_PER_PAGE && SetOf(bhs') == SetOf(bhs) + SetOf(fe.bhs)
    ensures Collection(g, bhs')
  {
    PointsBlocks(g, fe);
    forall b | b in bhs' ensures g.TableBlock(b) {
      assert b in SetOf(bhs');
    }
  }

  /** The blocks of the entries that are free in `f` and were not in `f0`. */
  ghost function FreedBlocks(g: Layout, f0: seq<int>, f: seq<int>): set<nat>
    requires g.blockSize > 0
  {
    set e: nat, b: nat | e < |f0| && e < |f| && f[e] == FAT_ENT_FREE && f0[e] != FAT_ENT_FREE
      && b in BlocksOf(g, e) :: b
  }

  lemma FreedStep(g: Layout, f0: seq<int>, f: seq<int>, e: nat)
    requires g.blockSize > 0 && OnlyFrees(f0, f) && e < |f| && f[e] != FAT_ENT_FREE
    ensures OnlyFrees(f0, f[e := FAT_ENT_FREE])
    ensures FreedBlocks(g, f0, f) + BlocksOf(g, e) <= FreedBlocks(g, f0, f[e := FAT_ENT_FREE])
  {
    var f' := f[e := FAT_ENT_FREE];
    forall b | b in FreedBlocks(g, f0, f) ensures b in FreedBlocks(g, f0, f') {
      var x: nat :| x < |f0| && x < |f| && f[x] == FAT_ENT_FREE && f0[x] != FAT_ENT_FREE && b in BlocksOf(g, x);
      assert f'[x] == FAT_ENT_FREE;
    }
    forall b | b in BlocksOf(g, e) ensures b in FreedBlocks(g, f0, f') {
      assert f'[e] == FAT_ENT_FREE && f0[e] != FAT_ENT_FREE;
    }
  }

  lemma SettledMirrored(g: Layout, f0: seq<int>, f: seq<int>, stale0: set<nat>, stale: set<nat>, bhs: seq<nat>)
    requires g.blockSize > 0 && Settled(g, f0, f, stale0, stale, bhs)
    ensures Settled(g, f0, f, stale0, stale - SetOf(bhs), [])
  {
  }

  lemma DistinctHeld(s: seq<nat>, t: seq<nat>)
    requires Distinct(s) && SetOf(s) <= SetOf(t)
    ensures multiset(s) <= multiset(t)
  {
    forall x ensures multiset(s)[x] <= multiset(t)[x] {
      DistinctOnce(s, x);
      if x in s {
        assert x in SetOf(s);
      }
    }
  }

  lemma {:induction false} DistinctOnce(s: seq<nat>, x: nat)
    requires Distinct(s)
    ensures multiset(s)[x] == if x in s then 1 else 0
  {
    if |s| > 0 {
      assert s == [s[0]] + s[1..];
      DistinctSlice(s, 1, |s|);
      assert s[1..] == s[1..|s|];
      if s[0] in s[1..] {
        DistinctHead(s, 0, s[0]);
      }
      DistinctOnce(s[1..], x);
    }
  }

  /** `cl` is what the scan has taken after `k` steps, and the table says so. */
  ghost predicate Taken(f0: seq<int>, f: seq<int>, start: nat, k: nat, cl: seq<int>) {
    && ScanStart(f0, start) && k <= |f0| - FAT_START_ENT
    && MetFree(f0, start, k, cl) && Linked(f0, f, cl) && Distinct(cl)
  }

  /** The next entry of the scan still holds what it held at the start. */
  lemma TakenFresh(f0: seq<int>, f: seq<int>, start: nat, k: nat, cl: seq<int>)
    requires Taken(f0, f, start, k, cl) && k < |f0| - FAT_START_ENT
    ensures var e := Nth(|f0|, start, k);
      e !in cl && f[e] == f0[e]
    ensures var e := Nth(|f0|, start, k);
      MetFree(f0, start, k + 1, if f0[e] == FAT_ENT_FREE then cl + [e] else cl)
  {
    MetFreeIs(f0, start, k, cl);
    FreeAlongMembers(f0, start, k);
    var e := Nth(|f0|, start, k);
    assert e !in cl;
  }

  /** The remembered previous entry: the last one taken, its buffers in the collection. */
  ghost predicate IsPrev(g: Layout, prev: FatEntry, cl: seq<int>, bhs: seq<nat>) {
    if |cl| == 0 then prev.bhs == []
    else Points(g, prev) && prev.entry == cl[|cl| - 1] && SetOf(prev.bhs) <= SetOf(bhs)
  }

  /** The two writes of one allocation, seen in the books of stale blocks. */
  lemma SettledTake(g: Layout, f0: seq<int>, f: seq<int>, stale0: set<nat>, stale: set<nat>, bhs: seq<nat>,
      fe: FatEntry, prev: FatEntry, cl: seq<int>, f': seq<int>, stale': set<nat>, bhs': seq<nat>)
    requires g.Valid() && Settled(g, f0, f, stale0, stale, bhs) && |f| == g.maxCluster
    requires forall i :: 0 <= i < |cl| ==> IsCluster(f, cl[i])
    requires Points(g, fe) && IsPrev(g, prev, cl, bhs)
    requires f' == LinkLast(f, cl, fe.entry)
    requires stale' <= stale + SetOf(fe.bhs) + SetOf(prev.bhs)
    requires SetOf(bhs') == SetOf(bhs) + SetOf(fe.bhs)
    ensures Settled(g, f0, f', stale0, stale', bhs')
  {
    PointsBlocks(g, fe);
    SettledStep(g, f0, f, stale0, stale, bhs, fe.entry, FAT_ENT_EOF, stale', bhs');
    if |cl| > 0 {
      PointsBlocks(g, prev);
      SettledStep(g, f0, f[fe.entry := FAT_ENT_EOF], stale0, stale', bhs', prev.entry, fe.entry, stale', bhs');
    }
  }

  /** The state an operation starts from. */
  datatype Origin = Origin(held: multiset<nat>, fat: seq<int>, stale: set<nat>, prevFree: nat, freeClusters: int)

  function LastOr(cl: seq<int>, d: int): int {
    if |cl| == 0 then d else cl[|cl| - 1]
  }

  function Wrap(g: Layout, entry: int): int {
    if entry >= g.maxCluster then FAT_START_ENT else entry
  }

  /** The free counter after `n` allocations: it counts down from a known value, and stepping
      below zero makes it unknown. */
  function Decreased(free: int, n: nat): int {
    if free == -1 || free - n < -1 then -1 else free - n
  }

  /** It is counted down by one for each, from what is known. */
  lemma DecreasedByOne(free: int, n: nat)
    requires free >= -1
    ensures Decreased(free, 0) == free
    ensures Decreased(free, n + 1) == if Decreased(free, n) == -1 then -1 else Decreased(free, n) - 1
  {
  }

  /** What the driver remembers of the free clusters: the one allocated last, and how many there are
      (-1 if unknown), trusted or not. */
  datatype FreeInfo = FreeInfo(last: int, free: int, valid: bool)

  /** The first `n` free entries of the scan that starts behind `last`, or all if there are fewer. */
  ghost function FirstFree(fat: seq<int>, last: nat, n: nat): (s: seq<int>)
    ensures |s| <= n
  {
    if !ScanStart(fat, last + 1) then []
    else
      var scan := Scan(fat, last + 1);
      if n <= |scan| then scan[..n] else scan
  }

  function UsableHint(next: nat, max: nat): (p: nat)
    requires FAT_START_ENT < max
    ensures FAT_START_ENT <= p < max && (FAT_START_ENT <= next < max ==> p == next)
  {
    var p := next % max;
    if p < FAT_START_ENT then FAT_START_ENT else p
  }

  /** A hint out of range counts on from cluster 0 again; 0 and 1 are no clusters. */
  lemma HintWraps(max: nat, k: nat, q: nat)
    requires FAT_START_ENT < max && q < max
    ensures UsableHint(k * max + q, max) == if q < FAT_START_ENT then FAT_START_ENT else q
  {
    DivOf(k, q, max);
  }

  ghost function ReadTable(g: Layout, d: seq<byte>): (fat: seq<int>)
    requires g.Valid() && g.Holds(d)
    ensures Decodes(g, d, fat)
  {
    assert forall e :: 0 <= e < g.maxCluster ==> Fits(g.ft, d, g.Base(), e) by {
      forall e | 0 <= e < g.maxCluster ensures Fits(g.ft, d, g.Base(), e) {
        EntryFits(g, d, e);
      }
    }
    seq(g.maxCluster, e requires 0 <= e < g.maxCluster => Entry(g.ft, d, g.Base(), e))
  }

  lemma NothingBelow(fat: seq<int>)
    requires |fat| >= FAT_START_ENT
    ensures FreeBelow(fat, FAT_START_ENT) == 0
  {
  }

  lemma OneMore(s: seq<nat>, i: nat, held: multiset<nat>)
    requires i < |s| && multiset(s) <= held
    ensures multiset(s[..i + 1]) <= multiset(s)
    ensures held - multiset(s[..i]) - multiset{s[i]} == held - multiset(s[..i + 1])
  {
    assert s[..i + 1] == s[..i] + [s[i]];
    assert s == s[..i + 1] + s[i + 1..];
  }

  class Volume {
    const g: Layout
    const disk: array<byte>
    var prevFree: nat
    var freeClusters: int     // -1 if unknown
    var freeClusValid: bool
    var held: multiset<nat>   // buffer references taken
    ghost var fat: seq<int>   // the decoded table
    ghost var stale: set<nat> // table blocks whose other copies may be out of date
    ghost var data: seq<byte> // the volume as last written outside the tables

    /** Mount: the hints of the FSINFO sector are taken only as far as they can be right. */
    constructor Mount(g: Layout, disk: array<byte>, nextCluster: nat, freeHint: int, useFree: bool,
                      ghost stale: set<nat>)
      requires g.Valid() && g.Holds(disk[..]) && MirroredExcept(g, disk[..], stale) && -1 <= freeHint
      ensures Valid() && this.g == g && this.disk == disk && this.stale == stale && held == multiset{}
      ensures data == disk[..]
      ensures prevFree == UsableHint(nextCluster, g.maxCluster)
      ensures freeClusters == if freeHint <= g.maxCluster - FAT_START_ENT then freeHint else -1
      ensures freeClusValid == useFree
    {
      this.g, this.disk := g, disk;
      this.stale, held := stale, multiset{};
      freeClusValid := useFree;
      freeClusters := if freeHint != -1 && freeHint > g.maxCluster - FAT_START_ENT then -1 else freeHint;
      prevFree := UsableHint(nextCluster, g.maxCluster);
      fat := ReadTable(g, disk[..]);
      data := disk[..];
    }

    ghost predicate Valid()
      reads this, disk
    {
      && g.Valid() && g.Holds(disk[..])
      && Decodes(g, disk[..], fat)
      && MirroredExcept(g, disk[..], stale)
      && SameData(g, data, disk[..])
      && FAT_START_ENT <= prevFree < g.maxCluster
      && -1 <= freeClusters
    }

    /** The free counter is known and right. */
    ghost predicate Exact()
      reads this
    {
      freeClusters == CountFree(fat)
    }

    // ----- one entry ------------------------------------------------------------------

    method EntSetPtr(fe: FatEntry, offset: nat) returns (r: FatEntry)
      requires |fe.bhs| >= 1
      ensures r == FatEntry(fe.entry, fe.bhs[0] * g.blockSize + offset,
        if g.ft != Fat12 then -1 else if |fe.bhs| == 1 then fe.bhs[0] * g.blockSize + offset + 1
        else fe.bhs[1] * g.blockSize, fe.bhs)
    {
      var p0 := fe.bhs[0] * g.blockSize + offset;
      var p1 := -1;
      if g.ft == Fat12 {
        if |fe.bhs| == 1 {
          p1 := fe.bhs[0] * g.blockSize + (offset + 1);
        } else {
          p1 := fe.bhs[1] * g.blockSize;
        }
      }
      r := FatEntry(fe.entry, p0, p1, fe.bhs);
    }

    method EntBrelse(fe: FatEntry) returns (r: FatEntry)
      requires multiset(fe.bhs) <= held
      modifies this`held
      ensures held == old(held) - multiset(fe.bhs)
      ensures r == FatEntry(fe.entry, -1, -1, [])
    {
      held := held - multiset(fe.bhs);
      r := FatEntry(fe.entry, -1, -1, []);
    }

    method EntBread(fe: FatEntry, offset: nat, blocknr: nat) returns (r: FatEntry)
      requires g.Valid() && FAT_START_ENT <= fe.entry < g.maxCluster
      requires offset == Offset(g, fe.entry) && blocknr == BlockNr(g, fe.entry)
      modifies this`held
      ensures Points(g, r) && r.entry == fe.entry
      ensures held == old(held) + multiset(r.bhs)
    {
      SetPtrPoints(g, fe.entry);
      var bhs := [blocknr];
      held := held + multiset{blocknr};
      if g.ft == Fat12 && offset + 1 >= g.blockSize {
        // its second byte is the first of the following block
        bhs := bhs + [blocknr + 1];
        held := held + multiset{blocknr + 1};
      }
      r := EntSetPtr(FatEntry(fe.entry, -1, -1, bhs), offset);
    }

    /** Keep the buffers already held when they are the ones the entry needs. */
    method EntUpdatePtr(fe: FatEntry, offset: nat, blocknr: nat) returns (same: bool, r: FatEntry)
      requires g.Valid() && FAT_START_ENT <= fe.entry < g.maxCluster
      requires offset == Offset(g, fe.entry) && blocknr == BlockNr(g, fe.entry)
      requires |fe.bhs| <= 2 && (g.ft != Fat12 ==> |fe.bhs| <= 1) && multiset(fe.bhs) <= held
      modifies this`held
      ensures same <==> Serve(g, fe.bhs, fe.entry)
      ensures same ==> Points(g, r) && r.entry == fe.entry
      ensures !same ==> r == fe && held == old(held)
      ensures held + multiset(fe.bhs) == old(held) + multiset(r.bhs)
    {
      hide Layout.Valid, Offset, BlockNr;
      SetPtrPoints(g, fe.entry);
      if |fe.bhs| == 0 || fe.bhs[0] != blocknr {
        return false, fe;
      }
      var bhs := fe.bhs;
      if g.ft == Fat12 {
        if offset + 1 < g.blockSize {
          if |bhs| == 2 {
            assert fe.bhs == [bhs[0]] + [bhs[1]];
            assert bhs[1] in multiset(fe.bhs);
            held := held - multiset{bhs[1]};
            bhs := [bhs[0]];
          }
        } else {
          if |bhs| != 2 {
            return false, fe;
          }
          if bhs[1] != blocknr + 1 {
            return false, fe;
          }
        }
      }
      same := true;
      r := EntSetPtr(FatEntry(fe.entry, -1, -1, bhs), offset);
    }

    method Fat12EntGet(fe: FatEntry) returns (next: int)
      requires Valid() && g.ft == Fat12 && Points(g, fe)
      ensures next == fat[fe.entry]
    {
      DecodedEntry(g, disk[..], fat, fe.entry);
      var b0: int, b1: int := disk[fe.p0], disk[fe.p1];
      next := if fe.entry % 2 == 1 then b0 / 16 + 16 * b1 else 0x100 * b1 + b0;
      next := next % 0x1000;
      assert next == Raw(Fat12, disk[..], g.Base(), fe.entry) by {
        NibbleGet(b0, b1);
      }
      if next >= 0xFF7 {
        next := FAT_ENT_EOF;
      }
    }

    method Fat16EntGet(fe: FatEntry) returns (next: int)
      requires Valid() && g.ft == Fat16 && Points(g, fe)
      ensures next == fat[fe.entry]
    {
      DecodedEntry(g, disk[..], fat, fe.entry);
      next := Le16(disk[fe.p0], disk[fe.p0 + 1]);
      if next >= 0xFFF7 {
        next := FAT_ENT_EOF;
      }
    }

    method Fat32EntGet(fe: FatEntry) returns (next: int)
      requires Valid() && g.ft == Fat32 && Points(g, fe)
      ensures next == fat[fe.entry]
    {
      DecodedEntry(g, disk[..], fat, fe.entry);
      next := Le32(disk[fe.p0], disk[fe.p0 + 1], disk[fe.p0 + 2], disk[fe.p0 + 3]) % 0x1000_0000;
      if next >= 0x0FFF_FFF7 {
        next := FAT_ENT_EOF;
      }
    }

    /** `ent_get`: only through pointers into buffers that are held. */
    method EntGet(fe: FatEntry) returns (next: int)
      requires Valid() && Points(g, fe) && multiset(fe.bhs) <= held
      ensures next == fat[fe.entry]
    {
      match g.ft
      case Fat12 => next := Fat12EntGet(fe);
      case Fat16 => next := Fat16EntGet(fe);
      case Fat32 => next := Fat32EntGet(fe);
    }

    method Fat12EntPut(fe: FatEntry, v: int)
      requires g.Valid() && g.Holds(disk[..]) && g.ft == Fat12 && Points(g, fe) && Putable(Fat12, v)
      modifies disk
      ensures Fits(Fat12, old(disk[..]), g.Base(), fe.entry)
      ensures disk[..] == Stored(Fat12, old(disk[..]), g.Base(), fe.entry, v)
    {
      EntryFits(g, disk[..], fe.entry);
      var n := if v == FAT_ENT_EOF then 0xFFF else v;
      var b0: int, b1: int := disk[fe.p0], disk[fe.p1];
      Nibbles(n, b0, b1);
      if fe.entry % 2 == 1 {
        disk[fe.p0] := n * 16 % 256 + b0 % 16;
        disk[fe.p1] := n / 16;
      } else {
        disk[fe.p0] := n % 256;
        disk[fe.p1] := b1 / 16 * 16 + n / 256;
      }
    }

    method Fat16EntPut(fe: FatEntry, v: int)
      requires g.Valid() && g.Holds(disk[..]) && g.ft == Fat16 && Points(g, fe) && Putable(Fat16, v)
      modifies disk
      ensures Fits(Fat16, old(disk[..]), g.Base(), fe.entry)
      ensures disk[..] == Stored(Fat16, old(disk[..]), g.Base(), fe.entry, v)
    {
      EntryFits(g, disk[..], fe.entry);
      var n := if v == FAT_ENT_EOF then 0xFFFF else v;
      disk[fe.p0] := n % 256;
      disk[fe.p0 + 1] := n / 256;
    }

    method Fat32EntPut(fe: FatEntry, v: int)
      requires g.Valid() && g.Holds(disk[..]) && g.ft == Fat32 && Points(g, fe) && Putable(Fat32, v)
      modifies disk
      ensures Fits(Fat32, old(disk[..]), g.Base(), fe.entry)
      ensures disk[..] == Stored(Fat32, old(disk[..]), g.Base(), fe.entry, v)
    {
      hide MirroredExcept;
      EntryFits(g, disk[..], fe.entry);
      var w := Le32(disk[fe.p0], disk[fe.p0 + 1], disk[fe.p0 + 2], disk[fe.p0 + 3]);
      TopBits(v, w);
      var n := v + w / 0x1000_0000 * 0x1000_0000;
      disk[fe.p0] := n % 256;
      disk[fe.p0 + 1] := n / 0x100 % 256;
      disk[fe.p0 + 2] := n / 0x1_0000 % 256;
      disk[fe.p0 + 3] := n / 0x100_0000;
    }

    /** `ent_put`: the decoded table changes at this entry only; its buffers become stale. */
    method EntPut(fe: FatEntry, v: int)
      requires Valid() && Points(g, fe) && multiset(fe.bhs) <= held && Storable(g, v)
      modifies this`fat, this`stale, disk
      ensures Valid()
      ensures fat == old(fat)[fe.entry := v]
      ensures stale == old(stale) + SetOf(fe.bhs)
      ensures Fits(g.ft, old(disk[..]), g.Base(), fe.entry) && Putable(g.ft, v)
      ensures disk[..] == Stored(g.ft, old(disk[..]), g.Base(), fe.entry, v)
    {
      ghost var d := disk[..];
      EntryFits(g, d, fe.entry);
      StoredInBuffers(g, d, fe, v);
      StoredDecodes(g, d, fat, fe.entry, v);
      WriteMakesStale(g, d, Stored(g.ft, d, g.Base(), fe.entry, v), stale, SetOf(fe.bhs));
      StoredInTable(g, data, d, fe, v);
      match g.ft {
        case Fat12 => Fat12EntPut(fe, v);
        case Fat16 => Fat16EntPut(fe, v);
        case Fat32 => Fat32EntPut(fe, v);
      }
      fat := fat[fe.entry := v];
      stale := stale + SetOf(fe.bhs);
    }

    // ----- stepping through a block ---------------------------------------------------

    lemma StepTest(fe: FatEntry)
      requires g.Valid() && Points(g, fe)
      ensures fe.entry + 1 < g.maxCluster && |fe.bhs| == 1 ==> (Reaches(g, fe) <==>
        if g.ft == Fat12 then fe.p1 + 1 + fe.entry % 2 < fe.bhs[0] * g.blockSize + (g.blockSize - 1)
        else fe.p0 < fe.bhs[0] * g.blockSize + (g.blockSize - Width(g.ft)))
      ensures fe.entry + 1 < g.maxCluster && |fe.bhs| == 2 ==> Reaches(g, fe)
    {
      if fe.entry + 1 < g.maxCluster && |fe.bhs| == 1 {
        ReachTest(g, fe);
      } else if fe.entry + 1 < g.maxCluster {
        NextInSecond(g, fe);
      }
    }

    method Fat12EntNext(fe: FatEntry) returns (more: bool, r: FatEntry)
      requires g.Valid() && g.ft == Fat12 && Points(g, fe) && multiset(fe.bhs) <= held
      modifies this`held
      ensures r.entry == fe.entry + 1
      ensures more && r.entry < g.maxCluster ==> Points(g, r)
      ensures r.entry < g.maxCluster ==> (more <==> Reaches(g, fe))
      ensures !more ==> |r.bhs| <= 2
      ensures held + multiset(fe.bhs) == old(held) + multiset(r.bhs)
    {
      var nextp := fe.p1 + 1 + fe.entry % 2;
      StepTest(fe);
      if |fe.bhs| == 1 {
        if nextp < fe.bhs[0] * g.blockSize + (g.blockSize - 1) {
          return true, FatEntry(fe.entry + 1, nextp - 1, nextp, fe.bhs);
        }
      } else {
        NextBlock(g, fe.bhs[0]);
        NextBlock(g, fe.bhs[1]);
        assert fe.bhs == [fe.bhs[0]] + [fe.bhs[1]];
        assert fe.bhs[0] in multiset(fe.bhs);
        held := held - multiset{fe.bhs[0]};
        return true, FatEntry(fe.entry + 1, nextp - 1, nextp, [fe.bhs[1]]);
      }
      more, r := false, FatEntry(fe.entry + 1, -1, -1, fe.bhs);
    }

    method Fat16EntNext(fe: FatEntry) returns (more: bool, r: FatEntry)
      requires g.Valid() && g.ft == Fat16 && Points(g, fe)
      ensures r.entry == fe.entry + 1 && r.bhs == fe.bhs
      ensures more && r.entry < g.maxCluster ==> Points(g, r)
      ensures r.entry < g.maxCluster ==> (more <==> Reaches(g, fe))
    {
      hide Points, Layout.Valid, InBlock, Reaches;
      assert |fe.bhs| == 1 by { PointsHere(g, fe); }
      StepTest(fe);
      if fe.p0 < fe.bhs[0] * g.blockSize + (g.blockSize - 2) {
        if fe.entry + 1 < g.maxCluster {
          NextWhole(g, fe);
        }
        return true, FatEntry(fe.entry + 1, fe.p0 + 2, -1, fe.bhs);
      }
      more, r := false, FatEntry(fe.entry + 1, -1, -1, fe.bhs);
    }

    method Fat32EntNext(fe: FatEntry) returns (more: bool, r: FatEntry)
      requires g.Valid() && g.ft == Fat32 && Points(g, fe)
      ensures r.entry == fe.entry + 1 && r.bhs == fe.bhs
      ensures more && r.entry < g.maxCluster ==> Points(g, r)
      ensures r.entry < g.maxCluster ==> (more <==> Reaches(g, fe))
    {
      hide Points, Layout.Valid, InBlock, Reaches;
      assert |fe.bhs| == 1 by { PointsHere(g, fe); }
      StepTest(fe);
      if fe.p0 < fe.bhs[0] * g.blockSize + (g.blockSize - 4) {
        if fe.entry + 1 < g.maxCluster {
          NextWhole(g, fe);
        }
        return true, FatEntry(fe.entry + 1, fe.p0 + 4, -1, fe.bhs);
      }
      more, r := false, FatEntry(fe.entry + 1, -1, -1, fe.bhs);
    }

    /** `fat_ent_next`: move to the next entry; `more` says that the pointers follow along, as they do
        whenever the buffers hold that entry, but for a 12-bit one that ends with its block. */
    method FatEntNext(fe: FatEntry) returns (more: bool, r: FatEntry)
      requires g.Valid() && Points(g, fe) && multiset(fe.bhs) <= held
      modifies this`held
      ensures r.entry == fe.entry + 1
      ensures more ==> Points(g, r)
      ensures more <==> r.entry < g.maxCluster && Reaches(g, fe)
      ensures held + multiset(fe.bhs) == old(held) + multiset(r.bhs)
    {
      match g.ft {
        case Fat12 => more, r := Fat12EntNext(fe);
        case Fat16 => more, r := Fat16EntNext(fe);
        case Fat32 => more, r := Fat32EntNext(fe);
      }
      more := more && r.entry < g.maxCluster;
    }

    /** `fat_ent_read_block`: drop the buffers held and read those of the current entry. */
    method EntReadBlock(fe: FatEntry) returns (r: FatEntry)
      requires g.Valid() && FAT_START_ENT <= fe.entry < g.maxCluster && multiset(fe.bhs) <= held
      modifies this`held
      ensures Points(g, r) && r.entry == fe.entry
      ensures held + multiset(fe.bhs) == old(held) + multiset(r.bhs)
    {
      r := EntBrelse(fe);
      r := EntBread(r, Offset(g, r.entry), BlockNr(g, r.entry));
    }

    /** Make the entry point at `entry`, reusing the buffers already held if they serve. */
    method EntLocate(fe: FatEntry, entry: nat) returns (r: FatEntry)
      requires g.Valid() && FAT_START_ENT <= entry < g.maxCluster && multiset(fe.bhs) <= held
      requires |fe.bhs| <= 2 && (g.ft != Fat12 ==> |fe.bhs| <= 1)
      modifies this`held
      ensures Points(g, r) && r.entry == entry
      ensures held + multiset(fe.bhs) == old(held) + multiset(r.bhs)
    {
      r := SetEntry(fe, entry);
      var offset, blocknr := Offset(g, entry), BlockNr(g, entry);
      var same;
      same, r := EntUpdatePtr(r, offset, blocknr);
      if !same {
        r := EntBrelse(r);
        r := EntBread(r, offset, blocknr);
      }
    }

    /** `fat_ent_read`: -EIO for a number outside the table, the entry's value otherwise. */
    method EntRead(fe: FatEntry, entry: int) returns (status: Status, next: int, r: FatEntry)
      requires Valid() && multiset(fe.bhs) <= held
      requires |fe.bhs| <= 2 && (g.ft != Fat12 ==> |fe.bhs| <= 1)
      modifies this`held
      ensures Valid()
      ensures status == if IsCluster(fat, entry) then Ok else IoError
      ensures status == Ok ==> Points(g, r) && r.entry == entry && next == fat[entry]
      ensures status != Ok ==> r.bhs == []
      ensures |r.bhs| <= 2 && (g.ft != Fat12 ==> |r.bhs| <= 1)
      ensures multiset(r.bhs) <= held
      ensures held + multiset(fe.bhs) == old(held) + multiset(r.bhs)
    {
      next := 0;
      if entry < FAT_START_ENT || g.maxCluster <= entry {
        r := EntBrelse(fe);
        return IoError, next, r;
      }
      r := EntLocate(fe, entry);
      Borrowed(old(held), held, fe.bhs, r.bhs);
      status := Ok;
      next := EntGet(r);
    }

    // ----- buffers ---------------------------------------------------------------------

    /** `fat_collect_bhs`: add the entry's buffers to the collection, each once. */
    method CollectBhs(bhs: seq<nat>, fe: FatEntry) returns (r: seq<nat>)
      requires Distinct(bhs)
      modifies this`held
      ensures bhs <= r && Distinct(r) && |r| <= |bhs| + |fe.bhs|
      ensures SetOf(r) == SetOf(bhs) + SetOf(fe.bhs)
      ensures held + multiset(bhs) == old(held) + multiset(r)
    {
      r := bhs;
      for n := 0 to |fe.bhs|
        invariant bhs <= r && Distinct(r) && |r| <= |bhs| + n
        invariant SetOf(r) == SetOf(bhs) + SetOf(fe.bhs[..n])
        invariant held + multiset(bhs) == old(held) + multiset(r)
      {
        var i := 0;
        while i < |r|
          invariant 0 <= i <= |r|
          invariant forall j :: 0 <= j < i ==> r[j] != fe.bhs[n]
        {
          if r[i] == fe.bhs[n] {
            break;
          }
          i := i + 1;
        }
        assert fe.bhs[..n + 1] == fe.bhs[..n] + [fe.bhs[n]];
        SetOfSnoc(fe.bhs[..n], fe.bhs[n]);
        SetOfSnoc(r, fe.bhs[n]);
        if i == |r| {
          DistinctSnoc(r, fe.bhs[n]);
          Regroup(held, multiset(bhs), old(held), multiset(r), multiset{fe.bhs[n]});
          held := held + multiset{fe.bhs[n]};
          r := r + [fe.bhs[n]];
        }
      }
      assert fe.bhs[..|fe.bhs|] == fe.bhs;
    }

    /** `brelse` of every collected buffer. */
    method ReleaseBhs(bhs: seq<nat>)
      requires multiset(bhs) <= held
      modifies this`held
      ensures held == old(held) - multiset(bhs)
    {
      for i := 0 to |bhs|
        invariant multiset(bhs[..i]) <= multiset(bhs)
        invariant held == old(held) - multiset(bhs[..i])
      {
        OneMore(bhs, i, old(held));
        held := held - multiset{bhs[i]};
      }
      assert bhs[..|bhs|] == bhs;
    }

    /** `memcpy`; both buffers hold what they held before. */
    method CopyBytes(from: nat, to: nat, n: nat)
      requires from + n <= disk.Length && to + n <= disk.Length
      modifies disk
      ensures BytesCopied(old(disk[..]), disk[..], from, to, n)
    {
      ghost var d := disk[..];
      forall i | 0 <= i < n {
        disk[to + i] := disk[from + i];
      }
      forall j | 0 <= j < |d| ensures ByteCopied(d, disk[..], from, to, n, j) {
        if to <= j < to + n {
          assert disk[to + (j - to)] == d[from + (j - to)];
        }
      }
    }

    /** The memcpy of one block over another. */
    method CopyBlock(src: nat, dst: nat)
      requires (src + 1) * g.blockSize <= disk.Length && (dst + 1) * g.blockSize <= disk.Length
      requires src != dst
      modifies disk
      ensures BlockCopied(g, old(disk[..]), disk[..], src, dst)
    {
      hide BlockCopied, BytesCopied;
      NextBlock(g, src);
      NextBlock(g, dst);
      ghost var d := disk[..];
      var from, to := src * g.blockSize, dst * g.blockSize;
      CopyBytes(from, to, g.blockSize);
      CopiedIs(g, d, disk[..], src, dst, from, to);
    }

    /** One block to one other copy. */
    method MirrorBlock(ghost d0: seq<byte>, bhs: seq<nat>, copy: nat, n: nat)
      requires g.Valid() && g.Holds(disk[..]) && Decodes(g, disk[..], fat) && SameData(g, data, disk[..])
      requires 1 <= copy < g.fats && n < |bhs| && g.TableBlock(bhs[n])
      requires MirrorProgress(g, d0, disk[..], bhs, copy, n) && FirstKept(g, d0, disk[..])
      modifies disk
      ensures g.Holds(disk[..]) && Decodes(g, disk[..], fat) && SameData(g, data, disk[..])
      ensures MirrorProgress(g, d0, disk[..], bhs, copy, n + 1) && FirstKept(g, d0, disk[..])
    {
      hide Decodes, SameData, MirrorProgress, BlockCopied, FirstKept;
      ghost var d := disk[..];
      CopyRange(g, bhs[n], copy);
      BlockInside(g, d, bhs[n]);
      BlockInside(g, d, bhs[n] + copy * g.fatLength);
      var backupFat := g.fatLength * copy;
      CopyBlock(bhs[n], backupFat + bhs[n]);
      CopyKeepsTable(g, d, disk[..], bhs[n], copy, fat);
      CopiedInTable(g, data, d, disk[..], bhs[n], backupFat + bhs[n]);
      FirstKeptOn(g, d0, d, disk[..]);
      MirrorStep(g, d0, d, disk[..], bhs, copy, n);
    }

    method MirrorCopy(ghost d0: seq<byte>, bhs: seq<nat>, copy: nat)
      requires g.Valid() && g.Holds(disk[..]) && Decodes(g, disk[..], fat) && SameData(g, data, disk[..])
      requires 1 <= copy < g.fats && forall b :: b in bhs ==> g.TableBlock(b)
      requires MirrorProgress(g, d0, disk[..], bhs, copy, 0) && FirstKept(g, d0, disk[..])
      modifies disk
      ensures g.Holds(disk[..]) && Decodes(g, disk[..], fat) && SameData(g, data, disk[..])
      ensures MirrorProgress(g, d0, disk[..], bhs, copy + 1, 0) && FirstKept(g, d0, disk[..])
    {
      for n := 0 to |bhs|
        invariant g.Holds(disk[..]) && Decodes(g, disk[..], fat) && SameData(g, data, disk[..])
        invariant MirrorProgress(g, d0, disk[..], bhs, copy, n) && FirstKept(g, d0, disk[..])
      {
        assert bhs[n] in bhs;
        MirrorBlock(d0, bhs, copy, n);
      }
      NextCopy(g, d0, disk[..], bhs, copy);
    }

    /** `fat_mirror_bhs`: copy the blocks to every other copy of the table. */
    method MirrorBhs(bhs: seq<nat>)
      requires Valid() && forall b :: b in bhs ==> g.TableBlock(b)
      modifies this`stale, disk
      ensures Valid() && stale == old(stale) - SetOf(bhs) && FirstKept(g, old(disk[..]), disk[..])
    {
      ghost var d0 := disk[..];
      MirrorStart(g, d0, bhs);
      for copy := 1 to g.fats
        invariant g.Holds(disk[..]) && Decodes(g, disk[..], fat) && SameData(g, data, disk[..])
        invariant MirrorProgress(g, d0, disk[..], bhs, copy, 0) && FirstKept(g, d0, disk[..])
        modifies disk
      {
        MirrorCopy(d0, bhs, copy);
      }
      MirrorDone(g, d0, disk[..], bhs, stale);
      stale := stale - SetOf(bhs);
    }

    /** `fat_ent_write`: put one entry and mirror its blocks. */
    method EntWrite(fe: FatEntry, v: int)
      requires Valid() && Points(g, fe) && multiset(fe.bhs) <= held && Storable(g, v)
      modifies this`fat, this`stale, disk
      ensures Valid()
      ensures fat == old(fat)[fe.entry := v]
      ensures stale == old(stale) - SetOf(fe.bhs)
      ensures Fits(g.ft, old(disk[..]), g.Base(), fe.entry) && Putable(g.ft, v)
      ensures FirstKept(g, Stored(g.ft, old(disk[..]), g.Base(), fe.entry, v), disk[..])
    {
      EntPut(fe, v);
      MirrorBhs(fe.bhs);
    }

    // ----- freeing a chain -------------------------------------------------------------

    /** Empty a full collection: mirror it and let it go. */
    method FlushIfFull(bhs: seq<nat>, fe: FatEntry, ghost held0: multiset<nat>) returns (r: seq<nat>)
      requires Valid() && Booked(held, held0, bhs, fe.bhs) && Collection(g, bhs) && |fe.bhs| <= 2
      modifies this`held, this`stale, disk
      ensures Valid() && Booked(held, held0, r, fe.bhs) && |r| + |fe.bhs| <= MAX_BUF_PER_PAGE
      ensures if |bhs| + |fe.bhs| > MAX_BUF_PER_PAGE then r == [] && stale == old(stale) - SetOf(bhs)
        else r == bhs && stale == old(stale)
      ensures |r| + |fe.bhs| <= 8 && (|bhs| + |fe.bhs| <= 8 ==> r == bhs && stale == old(stale))
    {
      r := bhs;
      if |bhs| + |fe.bhs| > MAX_BUF_PER_PAGE {
        MirrorBhs(bhs);
        BookedRelease(held, held0, bhs, fe.bhs);
        ReleaseBhs(bhs);
        r := [];
      }
    }

    /** The buffers of an entry just freed join the collection. */
    method CollectFreed(fe: FatEntry, bhs: seq<nat>, ghost held0: multiset<nat>) returns (r: seq<nat>)
      requires Valid() && Points(g, fe) && Booked(held, held0, bhs, fe.bhs) && Collection(g, bhs)
      modifies this`stale, this`held, disk
      ensures Valid() && Booked(held, held0, r, fe.bhs) && Collection(g, r)
      ensures BlocksOf(g, fe.entry) <= SetOf(r) <= SetOf(bhs) + BlocksOf(g, fe.entry)
      ensures stale <= old(stale) && stale * SetOf(bhs) <= SetOf(r)
    {
      hide Decodes, MirroredExcept, SameData, Booked, BlocksOf;
      PointsBlocks(g, fe);
      r := FlushIfFull(bhs, fe, held0);
      ghost var r0, h0 := r, held;
      r := CollectBhs(r, fe);
      BookedCollection(h0, held0, r0, fe.bhs, held, r);
      assert forall b :: b in r ==> b in SetOf(r);
      assert forall b :: b in r0 ==> b in SetOf(r0);
    }

    /** The freeing loop once an entry is read: free it, count it, collect it. */
    method FreeEntry(fe: FatEntry, bhs: seq<nat>, ghost held0: multiset<nat>) returns (r: seq<nat>)
      requires Valid() && Points(g, fe) && Booked(held, held0, bhs, fe.bhs) && Collection(g, bhs)
      modifies this`fat, this`stale, this`held, this`freeClusters, disk
      ensures Valid() && fat == old(fat)[fe.entry := FAT_ENT_FREE]
      ensures freeClusters == if old(freeClusters) == -1 then -1 else old(freeClusters) + 1
      ensures Booked(held, held0, r, fe.bhs) && Collection(g, r)
      ensures BlocksOf(g, fe.entry) <= SetOf(r) <= SetOf(bhs) + BlocksOf(g, fe.entry)
      ensures stale <= old(stale) + SetOf(r)
      ensures forall b :: b in SetOf(bhs) ==> b in SetOf(r) || b !in stale
    {
      hide Decodes, MirroredExcept, SameData, Booked, BlocksOf;
      PointsBlocks(g, fe);
      BookedRelease(held, held0, bhs, fe.bhs);
      EntPut(fe, FAT_ENT_FREE);
      if freeClusters != -1 {
        freeClusters := freeClusters + 1;
      }
      r := CollectFreed(fe, bhs, held0);
    }

    /** One round of the freeing loop: read the entry's link, then free the entry. */
    method FreeNext(fe: FatEntry, cluster: int, bhs: seq<nat>,
        ghost held0: multiset<nat>, ghost f0: seq<int>, ghost stale0: set<nat>)
      returns (status: Status, next: int, fe': FatEntry, bhs': seq<nat>)
      requires Valid() && Booked(held, held0, bhs, fe.bhs) && Collection(g, bhs)
      requires |fe.bhs| <= 2 && (g.ft != Fat12 ==> |fe.bhs| <= 1)
      requires Settled(g, f0, fat, stale0, stale, bhs)
      modifies this`fat, this`stale, this`held, this`freeClusters, disk
      ensures Valid() && Booked(held, held0, bhs', fe'.bhs) && Collection(g, bhs')
      ensures |fe'.bhs| <= 2 && (g.ft != Fat12 ==> |fe'.bhs| <= 1)
      ensures status == if IsCluster(old(fat), cluster) && old(fat)[cluster] != FAT_ENT_FREE then Ok else IoError
      ensures status != Ok ==> fat == old(fat) && freeClusters == old(freeClusters) && bhs' == bhs
      ensures status == Ok ==> next == old(fat)[cluster] && fat == old(fat)[cluster := FAT_ENT_FREE]
      ensures status == Ok ==> freeClusters == if old(freeClusters) == -1 then -1 else old(freeClusters) + 1
      ensures Settled(g, f0, fat, stale0, stale, bhs')
      ensures status == Ok ==> SetOf(bhs') <= SetOf(bhs) + BlocksOf(g, cluster)
    {
      bhs' := bhs;
      BookedRelease(held, held0, bhs, fe.bhs);
      ghost var h0 := held;
      status, next, fe' := EntRead(fe, cluster);
      BookedCurrent(h0, held0, bhs, fe.bhs, held, fe'.bhs);
      if status == Ok && next == FAT_ENT_FREE {
        status := IoError;
      }
      if status == Ok {
        bhs' := FreeEntry(fe', bhs, held0);
        SettledStep(g, f0, old(fat), stale0, old(stale), bhs, cluster, FAT_ENT_FREE, stale, bhs');
      }
    }

    /** The freeing loop: it ends on any table, and what it leaves is `FreeWalk`. */
    method FreeLoop(first: int) returns (status: Status, fe: FatEntry, bhs: seq<nat>)
      requires Valid()
      modifies this`fat, this`stale, this`held, this`freeClusters, disk
      ensures Valid() && Booked(held, old(held), bhs, fe.bhs) && Collection(g, bhs)
      ensures fat == FreeWalk(old(fat), first).fat
      ensures status == if FreeWalk(old(fat), first).ok then Ok else IoError
      ensures freeClusters == if old(freeClusters) == -1 then -1
        else old(freeClusters) + FreeWalk(old(fat), first).freed
      ensures Settled(g, old(fat), fat, old(stale), stale, bhs)
      ensures SetOf(bhs) <= FreedBlocks(g, old(fat), fat)
    {
      var cluster := first;
      fe, bhs := InitEntry(), [];
      ghost var n, f0 := 0, fat;
      while true
        invariant Valid() && Booked(held, old(held), bhs, fe.bhs) && Collection(g, bhs)
        invariant |fe.bhs| <= 2 && (g.ft != Fat12 ==> |fe.bhs| <= 1)
        invariant Settled(g, f0, fat, old(stale), stale, bhs)
        invariant OnlyFrees(f0, fat) && SetOf(bhs) <= FreedBlocks(g, f0, fat)
        invariant FreeWalk(f0, first) == More(FreeWalk(fat, cluster), n)
        invariant freeClusters == if old(freeClusters) == -1 then -1 else old(freeClusters) + n
        decreases |fat| - CountFree(fat)
      {
        ghost var f := fat;
        FreeWalkStep(f, cluster);
        var next;
        status, next, fe, bhs := FreeNext(fe, cluster, bhs, old(held), f0, old(stale));
        if status != Ok {
          break;
        }
        FreedStep(g, f0, f, cluster);
        n := n + 1;
        if next == FAT_ENT_EOF {
          break;
        }
        cluster := next;
      }
    }

    /** Drop the buffers collected and those of the entry. */
    method ReleaseAll(fe: FatEntry, bhs: seq<nat>, ghost held0: multiset<nat>)
      requires Booked(held, held0, bhs, fe.bhs)
      modifies this`held
      ensures held == held0
    {
      BookedRelease(held, held0, bhs, fe.bhs);
      var _ := EntBrelse(fe);
      ReleaseBhs(bhs);
    }

    /** `fat_free_clusters`; when it succeeds every entry it changed is the same in all copies
        of the table. */
    method FreeClusters(first: int) returns (status: Status)
      requires Valid()
      modifies this`fat, this`stale, this`held, this`freeClusters, disk
      ensures Valid() && held == old(held)
      ensures fat == FreeWalk(old(fat), first).fat
      ensures status == if FreeWalk(old(fat), first).ok then Ok else IoError
      ensures freeClusters == if old(freeClusters) == -1 then -1
        else old(freeClusters) + FreeWalk(old(fat), first).freed
      ensures status == Ok ==> Settled(g, old(fat), fat, old(stale), stale, [])
      ensures stale <= old(stale) + FreedBlocks(g, old(fat), fat)
    {
      hide Decodes, MirroredExcept, FreeWalk, CountFree, SameData, FreedBlocks, Booked, Collection;
      hide BlocksOf, Settled, SetOf, Layout.TableBlock;
      var fe, bhs;
      status, fe, bhs := FreeLoop(first);
      if status == Ok {
        SettledMirrored(g, old(fat), fat, old(stale), stale, bhs);
        MirrorBhs(bhs);
      }
      ReleaseAll(fe, bhs, old(held));
    }

    // ----- outside the tables ------------------------------------------------------------

    /** A block of a file or directory is written through its buffer. */
    method WriteData(at: nat, b: seq<byte>)
      requires Valid() && TablesEnd(g) <= at && at + |b| <= disk.Length
      modifies this`data, disk
      ensures Valid() && disk[..] == Overwritten(old(disk[..]), at, b) && data == disk[..]
    {
      ghost var d := disk[..];
      forall i | 0 <= i < |b| {
        disk[at + i] := b[i];
      }
      assert disk[..] == Overwritten(d, at, b);
      TableEndBound(g);
      DecodesFrame(g, d, disk[..], fat);
      MirroredFrame(g, d, disk[..], stale);
      data := disk[..];
    }

    // ----- allocating ------------------------------------------------------------------

    /** The scan has met a free entry: end the chain with it and link the previous one to it. */
    method LinkEntry(fe: FatEntry, prev: FatEntry, ghost cl: seq<int>, ghost bhs: seq<nat>, ghost f0: seq<int>)
      requires Valid() && Points(g, fe) && multiset(fe.bhs) <= held && multiset(bhs) <= held
      requires IsPrev(g, prev, cl, bhs)
      requires Linked(f0, fat, cl) && Distinct(cl) && fe.entry !in cl
      modifies this`fat, this`stale, disk
      ensures Valid()
      ensures fat == LinkLast(old(fat), cl, fe.entry)
      ensures Linked(f0, fat, cl + [fe.entry]) && Distinct(cl + [fe.entry])
      ensures stale == old(stale) + SetOf(fe.bhs) + SetOf(prev.bhs)
    {
      LinkedExtend(f0, fat, cl, fe.entry);
      EntPut(fe, FAT_ENT_EOF);
      if |prev.bhs| > 0 {
        PointsBlocks(g, prev);
        DistinctHeld(prev.bhs, bhs);
        EntPut(prev, fe.entry);
      }
    }

    /** Add the entry's buffers to the collection of the chain being made. */
    method CollectTaken(fe: FatEntry, bhs: seq<nat>, ghost held0: multiset<nat>) returns (bhs': seq<nat>)
      requires g.Valid() && Points(g, fe) && Booked(held, held0, bhs, fe.bhs) && Collection(g, bhs)
      requires |bhs| + 2 <= MAX_BUF_PER_PAGE
      modifies this`held
      ensures Booked(held, held0, bhs', fe.bhs) && Collection(g, bhs')
      ensures SetOf(bhs') == SetOf(bhs) + SetOf(fe.bhs) && |bhs'| <= |bhs| + 2
    {
      ghost var h0 := held;
      bhs' := CollectBhs(bhs, fe);
      BookedCollection(h0, held0, bhs, fe.bhs, held, bhs');
      CollectionGrows(g, bhs, fe, bhs');
    }

    method TakeEntry(fe: FatEntry, prev: FatEntry, cl: seq<int>, bhs: seq<nat>,
        ghost held0: multiset<nat>, ghost f0: seq<int>, ghost stale0: set<nat>)
      returns (bhs': seq<nat>)
      requires Valid() && Points(g, fe) && Booked(held, held0, bhs, fe.bhs) && Collection(g, bhs)
      requires IsPrev(g, prev, cl, bhs) && |bhs| <= 2 * |cl| && 2 * |cl| + 2 <= MAX_BUF_PER_PAGE
      requires Linked(f0, fat, cl) && Distinct(cl) && fe.entry !in cl && Settled(g, f0, fat, stale0, stale, bhs)
      modifies this`fat, this`stale, this`held, this`prevFree, this`freeClusters, disk
      ensures Valid() && Booked(held, held0, bhs', fe.bhs) && Collection(g, bhs')
      ensures SetOf(bhs') == SetOf(bhs) + SetOf(fe.bhs) && |bhs'| <= 2 * |cl| + 2
      ensures Linked(f0, fat, cl + [fe.entry]) && Distinct(cl + [fe.entry])
      ensures Settled(g, f0, fat, stale0, stale, bhs')
      ensures prevFree == fe.entry
      ensures freeClusters == if old(freeClusters) == -1 then -1 else old(freeClusters) - 1
    {
      assert multiset(fe.bhs) <= held && multiset(bhs) <= held by {
        BookedRelease(held, held0, bhs, fe.bhs);
      }
      ghost var f, st := fat, stale;
      LinkEntry(fe, prev, cl, bhs, f0);
      bhs' := CollectTaken(fe, bhs, held0);
      SettledTake(g, f0, f, stale0, st, bhs, fe, prev, cl, fat, stale, bhs');
      prevFree := fe.entry;
      if freeClusters != -1 {
        freeClusters := freeClusters - 1;
      }
    }

    /** The state of an allocation after `k` steps of its scan: `cl` taken and linked, the books
        of buffers and stale blocks kept, the hint and the counter in step. */
    ghost predicate Scanning(o: Origin, k: nat, cl: seq<int>, cur: seq<nat>, bhs: seq<nat>)
      reads this, disk
    {
      match o
      case Origin(held0, fat0, stale0, prevFree0, freeClusters0) =>
        && Valid() && Booked(held, held0, bhs, cur) && Collection(g, bhs) && |bhs| <= 2 * |cl|
        && Taken(fat0, fat, prevFree0 + 1, k, cl) && SetOf(bhs) == ChainBlocks(g, cl)
        && Settled(g, fat0, fat, stale0, stale, bhs)
        && prevFree == LastOr(cl, prevFree0)
        && freeClusters == Decreased(freeClusters0, |cl|)
    }

    /** The next entry of the scan is none taken before and still holds what it held. */
    lemma ScanHere(o: Origin, k: nat, cl: seq<int>, cur: seq<nat>, bhs: seq<nat>, e: nat)
      requires Scanning(o, k, cl, cur, bhs)
      requires k < g.maxCluster - FAT_START_ENT && e == Nth(g.maxCluster, o.prevFree + 1, k)
      ensures |o.fat| == |fat| == g.maxCluster && e < g.maxCluster && e !in cl && fat[e] == o.fat[e]
      ensures ScanStart(o.fat, o.prevFree + 1) && Linked(o.fat, fat, cl) && Distinct(cl)
      ensures MetFree(o.fat, o.prevFree + 1, k + 1, if fat[e] == FAT_ENT_FREE then cl + [e] else cl)
      ensures multiset(cur) <= held
    {
      TakenFresh(o.fat, fat, o.prevFree + 1, k, cl);
      BookedRelease(held, o.held, bhs, cur);
    }

    /** What stands before an entry is taken. */
    lemma BeforeTaking(o: Origin, k: nat, cl: seq<int>, fe: FatEntry, bhs: seq<nat>)
      requires Scanning(o, k, cl, fe.bhs, bhs)
      ensures Valid() && Booked(held, o.held, bhs, fe.bhs) && Collection(g, bhs) && |bhs| <= 2 * |cl|
      ensures forall i :: 0 <= i < |cl| ==> cl[i] >= 0
      ensures SetOf(bhs) == ChainBlocks(g, cl) && Settled(g, o.fat, fat, o.stale, stale, bhs)
      ensures freeClusters == Decreased(o.freeClusters, |cl|)
    {
    }

    /** And after. */
    lemma AfterTaking(o: Origin, k: nat, cl: seq<int>, fe: FatEntry, bhs: seq<nat>, bhs': seq<nat>, free: int)
      requires Valid() && Booked(held, o.held, bhs', fe.bhs) && Collection(g, bhs') && |bhs'| <= 2 * |cl| + 2
      requires g.Valid() && forall i :: 0 <= i < |cl| ==> cl[i] >= 0
      requires SetOf(bhs') == SetOf(bhs) + SetOf(fe.bhs) && SetOf(bhs) == ChainBlocks(g, cl) && Points(g, fe)
      requires Settled(g, o.fat, fat, o.stale, stale, bhs')
      requires prevFree == fe.entry && free == Decreased(o.freeClusters, |cl|)
      requires freeClusters == if free == -1 then -1 else free - 1
      requires ScanStart(o.fat, o.prevFree + 1) && k < |o.fat| - FAT_START_ENT
      requires MetFree(o.fat, o.prevFree + 1, k + 1, cl + [fe.entry])
      requires Linked(o.fat, fat, cl + [fe.entry]) && Distinct(cl + [fe.entry])
      ensures Scanning(o, k + 1, cl + [fe.entry], fe.bhs, bhs') && IsPrev(g, fe, cl + [fe.entry], bhs')
    {
      hide Decodes, MirroredExcept, SameData, Booked, Collection;
      hide Settled, MetFree, Linked, Distinct, ScanStart, Volume.Valid;
      PointsBlocks(g, fe);
      ChainBlocksSnoc(g, cl, fe.entry);
    }

    /** The entry is free: take it. */
    method ScanTake(cl: seq<int>, fe: FatEntry, prev: FatEntry, bhs: seq<nat>, ghost o: Origin, ghost k: nat)
      returns (bhs': seq<nat>)
      requires Scanning(o, k, cl, fe.bhs, bhs) && IsPrev(g, prev, cl, bhs) && Points(g, fe)
      requires 2 * |cl| + 2 <= MAX_BUF_PER_PAGE && k < g.maxCluster - FAT_START_ENT
      requires fe.entry == Nth(g.maxCluster, o.prevFree + 1, k)
      requires fe.entry < |fat| && fat[fe.entry] == FAT_ENT_FREE
      modifies this`fat, this`stale, this`held, this`prevFree, this`freeClusters, disk
      ensures Scanning(o, k + 1, cl + [fe.entry], fe.bhs, bhs')
      ensures IsPrev(g, fe, cl + [fe.entry], bhs')
    {
      hide *;
      ScanHere(o, k, cl, fe.bhs, bhs, fe.entry);
      BeforeTaking(o, k, cl, fe, bhs);
      ghost var free := freeClusters;
      bhs' := TakeEntry(fe, prev, cl, bhs, o.held, o.fat, o.stale);
      AfterTaking(o, k, cl, fe, bhs, bhs', free);
    }

    /** One step of the scan: take the entry if it is free. */
    method ScanEntry(nr: nat, cl: seq<int>, fe: FatEntry, prev: FatEntry, bhs: seq<nat>, ghost o: Origin, ghost k: nat)
      returns (cl': seq<int>, prev': FatEntry, bhs': seq<nat>)
      requires Scanning(o, k, cl, fe.bhs, bhs) && IsPrev(g, prev, cl, bhs) && Points(g, fe)
      requires |cl| < nr <= MAX_BUF_PER_PAGE / 2
      requires k < g.maxCluster - FAT_START_ENT && fe.entry == Nth(g.maxCluster, o.prevFree + 1, k)
      modifies this`fat, this`stale, this`held, this`prevFree, this`freeClusters, disk
      ensures Scanning(o, k + 1, cl', fe.bhs, bhs') && |cl'| <= nr
      ensures |cl'| < nr ==> IsPrev(g, prev', cl', bhs')
    {
      hide Decodes, MirroredExcept, SameData, Booked, Collection, Settled, MetFree, Linked, Distinct, ScanStart, IsPrev;
      ScanHere(o, k, cl, fe.bhs, bhs, fe.entry);
      var next := EntGet(fe);
      if next != FAT_ENT_FREE {
        return cl, prev, bhs;
      }
      bhs' := ScanTake(cl, fe, prev, bhs, o, k);
      cl' := cl + [fe.entry];
      prev' := if |cl'| < nr then fe else prev;
    }

    /** Where the scan stands: chain long enough, round over, or at the right next entry. */
    ghost predicate InStep(o: Origin, nr: nat, count: nat, cl: seq<int>, fe: FatEntry, prev: FatEntry, bhs: seq<nat>)
      reads this, disk
    {
      match o
      case Origin(_, _, _, prevFree0, _) =>
        && FAT_START_ENT <= count <= g.maxCluster && |cl| <= nr
        && Scanning(o, count - FAT_START_ENT, cl, fe.bhs, bhs)
        && (|cl| < nr ==> IsPrev(g, prev, cl, bhs))
        && (|cl| < nr && count < g.maxCluster
            ==> Wrap(g, fe.entry) == Nth(g.maxCluster, prevFree0 + 1, count - FAT_START_ENT))
    }

    /** One round of the inner loop: look at the entry, count it, and step on if need be. */
    method ScanStep(nr: nat, count0: nat, cl0: seq<int>, fe0: FatEntry, prev0: FatEntry, bhs0: seq<nat>,
                    ghost o: Origin)
      returns (more: bool, count: nat, cl: seq<int>, fe: FatEntry, prev: FatEntry, bhs: seq<nat>)
      requires InStep(o, nr, count0, cl0, fe0, prev0, bhs0) && Points(g, fe0)
      requires |cl0| < nr <= MAX_BUF_PER_PAGE / 2 && count0 < g.maxCluster
      modifies this`fat, this`stale, this`held, this`prevFree, this`freeClusters, disk
      ensures count == count0 + 1 && InStep(o, nr, count, cl, fe, prev, bhs)
      ensures more ==> Points(g, fe) && |cl| < nr && count < g.maxCluster
    {
      cl, prev, bhs := ScanEntry(nr, cl0, fe0, prev0, bhs0, o, count0 - FAT_START_ENT);
      count := count0 + 1;
      if |cl| == nr || count == g.maxCluster {
        more, fe := false, fe0;
      } else {
        more, fe := ScanNext(fe0, bhs, o, count - FAT_START_ENT, cl);
      }
    }

    /** The scan of one block: until the chain is long enough, the round is over, or the block
        ends. */
    method ScanBlock(nr: nat, count0: nat, cl0: seq<int>, fe0: FatEntry, prev0: FatEntry, bhs0: seq<nat>,
                     ghost o: Origin)
      returns (count: nat, cl: seq<int>, fe: FatEntry, prev: FatEntry, bhs: seq<nat>)
      requires InStep(o, nr, count0, cl0, fe0, prev0, bhs0) && Points(g, fe0)
      requires |cl0| < nr <= MAX_BUF_PER_PAGE / 2 && count0 < g.maxCluster
      modifies this`fat, this`stale, this`held, this`prevFree, this`freeClusters, disk
      ensures count0 < count <= g.maxCluster && InStep(o, nr, count, cl, fe, prev, bhs)
    {
      count, cl, fe, prev, bhs := count0, cl0, fe0, prev0, bhs0;
      var more := true;
      while more
        invariant InStep(o, nr, count, cl, fe, prev, bhs)
        invariant more ==> Points(g, fe) && |cl| < nr && count < g.maxCluster
        invariant count0 <= count && (more || count0 < count)
        decreases more, g.maxCluster - count
      {
        more, count, cl, fe, prev, bhs := ScanStep(nr, count, cl, fe, prev, bhs, o);
      }
    }

    method ScanNext(fe: FatEntry, ghost bhs: seq<nat>, ghost o: Origin, ghost k: nat, ghost cl: seq<int>)
      returns (more: bool, r: FatEntry)
      requires Scanning(o, k, cl, fe.bhs, bhs) && Points(g, fe)
      modifies this`held
      ensures Scanning(o, k, cl, r.bhs, bhs) && r.entry == fe.entry + 1
      ensures more ==> Points(g, r)
    {
      hide Decodes, MirroredExcept, Booked, Collection, Taken, Settled, ChainBlocks, SetOf, LastOr, Decreased;
      BookedRelease(held, o.held, bhs, fe.bhs);
      ghost var h0 := held;
      more, r := FatEntNext(fe);
      BookedCurrent(h0, o.held, bhs, fe.bhs, held, r.bhs);
    }

    method ScanRead(nr: nat, count: nat, ghost cl: seq<int>, fe: FatEntry, ghost prev: FatEntry, ghost bhs: seq<nat>,
                    ghost o: Origin)
      returns (r: FatEntry)
      requires InStep(o, nr, count, cl, fe, prev, bhs) && |cl| < nr && count < g.maxCluster
      modifies this`held
      ensures InStep(o, nr, count, cl, r, prev, bhs) && Points(g, r)
    {
      BookedRelease(held, o.held, bhs, fe.bhs);
      ghost var h0 := held;
      r := EntReadBlock(SetEntry(fe, Wrap(g, fe.entry)));
      BookedCurrent(h0, o.held, bhs, fe.bhs, held, r.bhs);
    }

    /** The scan of `fat_alloc_clusters`: block by block from one past the last allocated
        cluster, around the table once, until `nr` clusters are taken. */
    method ScanLoop(nr: nat, ghost o: Origin) returns (cl: seq<int>, fe: FatEntry, bhs: seq<nat>, ghost k: nat)
      requires Valid() && 1 <= nr <= MAX_BUF_PER_PAGE / 2
      requires o == Origin(held, fat, stale, prevFree, freeClusters)
      modifies this`fat, this`stale, this`held, this`prevFree, this`freeClusters, disk
      ensures Scanning(o, k, cl, fe.bhs, bhs) && |cl| <= nr
      ensures |cl| < nr ==> k == g.maxCluster - FAT_START_ENT
    {
      var count := FAT_START_ENT;
      var prev := InitEntry();
      cl, bhs := [], [];
      fe := SetEntry(InitEntry(), prevFree + 1);
      while |cl| < nr && count < g.maxCluster
        invariant InStep(o, nr, count, cl, fe, prev, bhs)
        decreases g.maxCluster - count
      {
        fe := ScanRead(nr, count, cl, fe, prev, bhs, o);
        count, cl, fe, prev, bhs := ScanBlock(nr, count, cl, fe, prev, bhs, o);
      }
      k := count - FAT_START_ENT;
    }

    /** `fat_alloc_clusters`: next fit. Unless a trusted free counter rules the request out, the
        first `nr` free entries of one round of the scan become a chain; when there are fewer,
        the table is given back as it was and the counter is right. */
    method AllocClusters(nr: nat) returns (status: Status, cl: seq<int>)
      requires Valid() && 1 <= nr <= MAX_BUF_PER_PAGE / 2
      modifies this`fat, this`stale, this`held, this`prevFree, this`freeClusters, this`freeClusValid, disk
      ensures Valid() && held == old(held)
      ensures ScanStart(old(fat), old(prevFree) + 1)
      ensures status == if old(NoRoom(nr)) then NoSpace else Ok
      ensures status == Ok ==>
        && |cl| == nr && cl == old(Taking(nr)) == Scan(old(fat), old(prevFree) + 1)[..nr] && Distinct(cl)
        && Linked(old(fat), fat, cl) && Settled(g, old(fat), fat, old(stale), stale, [])
        && prevFree == cl[nr - 1] && freeClusters == Decreased(old(freeClusters), nr)
        && NextFit(old(fat), old(prevFree), cl)
      ensures status == NoSpace
        <==> CountFree(old(fat)) < nr || (old(freeClusValid) && 0 <= old(freeClusters) < nr)
      ensures old(freeClusValid && -1 != freeClusters < nr) ==> Info() == old(Info())
      ensures status == NoSpace && !old(freeClusValid && -1 != freeClusters < nr) ==>
        && freeClusters == CountFree(fat) && freeClusValid && (CountFree(fat) == 0 ==> prevFree == old(prevFree))
        && (CountFree(fat) > 0 ==> LastInRound(fat, old(prevFree), prevFree))
      ensures status == Ok ==> freeClusValid == old(freeClusValid)
      ensures status == NoSpace ==> fat == old(fat) && stale <= old(stale) && (old(Exact()) ==> Exact())
      ensures Info() == old(InfoAfter(nr))
    {
      hide Decodes, MirroredExcept, SameData, Settled, Linked, Distinct, CountFree, Scan, NextFit;
      ScanStarts();
      TakingIs(nr);
      ScanOrder(fat, prevFree + 1, Min(nr, |Scan(fat, prevFree + 1)|));
      ScanLast(fat, prevFree + 1);
      if freeClusters != -1 && freeClusValid && freeClusters < nr {
        return NoSpace, [];
      }
      ghost var o := Origin(held, fat, stale, prevFree, freeClusters);
      var fe, bhs;
      ghost var k;
      cl, fe, bhs, k := ScanLoop(nr, o);
      status := FinishAlloc(nr, cl, fe, bhs, o, k);
    }

    function Info(): FreeInfo
      reads this`prevFree, this`freeClusters, this`freeClusValid
    {
      FreeInfo(prevFree, freeClusters, freeClusValid)
    }

    /** The clusters an allocation of `nr` takes: next fit, all or none. */
    ghost function Taking(nr: nat): (s: seq<int>)
      reads this
      ensures |s| <= nr
    {
      if NoRoom(nr) then [] else FirstFree(fat, prevFree, nr)
    }

    /** What is remembered after it: nothing new if the counter ruled it out; else the last free
        entry met, and one fewer for each cluster taken, or the exact number if there were too few. */
    ghost function InfoAfter(nr: nat): FreeInfo
      reads this
    {
      if RuledOut(nr) then Info()
      else if CountFree(fat) < nr then FreeInfo(LastOr(FirstFree(fat, prevFree, nr), prevFree), CountFree(fat), true)
      else FreeInfo(LastOr(FirstFree(fat, prevFree, nr), prevFree), Decreased(freeClusters, nr), freeClusValid)
    }

    /** That in terms of the scan. */
    lemma TakingIs(nr: nat)
      requires Valid()
      ensures ScanStart(fat, prevFree + 1) && |Scan(fat, prevFree + 1)| == CountFree(fat)
      ensures !NoRoom(nr) ==>
        nr <= |Scan(fat, prevFree + 1)| && Taking(nr) == Scan(fat, prevFree + 1)[..nr] && |Taking(nr)| == nr
      ensures NoRoom(nr) ==> Taking(nr) == []
      ensures !RuledOut(nr) && CountFree(fat) < nr ==>
        InfoAfter(nr) == FreeInfo(LastOr(Scan(fat, prevFree + 1), prevFree), CountFree(fat), true)
      ensures !NoRoom(nr) ==>
        InfoAfter(nr) == FreeInfo(LastOr(Taking(nr), prevFree), Decreased(freeClusters, nr), freeClusValid)
    {
      hide Decodes, MirroredExcept, SameData, Scan, CountFree;
      ScanStarts();
      ScanCount(fat, prevFree + 1);
    }

    /** An allocation that is not asked for takes nothing and leaves everything as it is. */
    lemma NothingTaken()
      requires Valid()
      ensures Taking(0) == [] && InfoAfter(0) == Info() && !NoRoom(0)
    {
      hide Decodes, MirroredExcept, SameData, Scan, CountFree;
    }

    predicate RuledOut(nr: nat)
      reads this
    {
      freeClusters != -1 && freeClusValid && freeClusters < nr
    }

    lemma ScanStarts()
      requires Valid()
      ensures ScanStart(fat, prevFree + 1)
    {
    }

    /** No clusters to be had: the trusted counter says so, or there are fewer free entries. */
    ghost predicate NoRoom(nr: nat)
      reads this
    {
      RuledOut(nr) || CountFree(fat) < nr
    }

    /** The way out of the scan. */
    method FinishAlloc(nr: nat, cl: seq<int>, fe: FatEntry, bhs: seq<nat>, ghost o: Origin, ghost k: nat)
        returns (status: Status)
      requires Scanning(o, k, cl, fe.bhs, bhs) && |cl| <= nr && 1 <= nr
      requires |cl| < nr ==> k == g.maxCluster - FAT_START_ENT
      modifies this`fat, this`stale, this`held, this`freeClusters, this`freeClusValid, disk
      ensures Valid() && held == o.held && ScanStart(o.fat, o.prevFree + 1)
      ensures status == if CountFree(o.fat) < nr then NoSpace else Ok
      ensures status == Ok ==>
        && |Scan(o.fat, o.prevFree + 1)| >= nr == |cl| && cl == Scan(o.fat, o.prevFree + 1)[..nr] && Distinct(cl)
        && Linked(o.fat, fat, cl) && Settled(g, o.fat, fat, o.stale, stale, [])
        && prevFree == cl[nr - 1] && freeClusters == Decreased(o.freeClusters, nr)
        && freeClusValid == old(freeClusValid)
      ensures status == NoSpace ==> fat == o.fat && stale <= o.stale && Exact() && freeClusValid
      ensures status == NoSpace ==> prevFree == LastOr(Scan(o.fat, o.prevFree + 1), o.prevFree)
    {
      hide Decodes, MirroredExcept, SameData, Settled, Linked, Distinct, Booked, Collection, Taken;
      ScanEnded(nr, o, k, cl, fe.bhs, bhs);
      if |cl| == nr {
        status := Ok;
        CommitChain(cl, fe, bhs, o, k);
      } else {
        status := NoSpace;
        GiveBack(cl, fe, bhs, o, k);
      }
    }

    /** What the scan has when it ends. */
    lemma ScanEnded(nr: nat, o: Origin, k: nat, cl: seq<int>, cur: seq<nat>, bhs: seq<nat>)
      requires Scanning(o, k, cl, cur, bhs) && |cl| <= nr && 1 <= nr
      requires |cl| < nr ==> k == g.maxCluster - FAT_START_ENT
      ensures ScanStart(o.fat, o.prevFree + 1) && (|cl| == nr <==> CountFree(o.fat) >= nr)
      ensures |cl| == nr ==> |Scan(o.fat, o.prevFree + 1)| >= nr && cl == Scan(o.fat, o.prevFree + 1)[..nr]
      ensures |cl| == nr ==> Distinct(cl) && Linked(o.fat, fat, cl)
      ensures |cl| == nr ==> prevFree == cl[nr - 1] && freeClusters == Decreased(o.freeClusters, nr)
      ensures |cl| < nr ==> cl == Scan(o.fat, o.prevFree + 1) && prevFree == LastOr(cl, o.prevFree)
    {
      hide MirroredExcept, SameData, Booked, Collection, Settled, ChainBlocks;
      ScanOutcome(o.fat, o.prevFree + 1, k, cl, nr);
      ScanCount(o.fat, o.prevFree + 1);
    }

    /** The way out with the chain complete: mirror the blocks written, let the buffers go. */
    method CommitChain(cl: seq<int>, fe: FatEntry, bhs: seq<nat>, ghost o: Origin, ghost k: nat)
      requires Scanning(o, k, cl, fe.bhs, bhs)
      modifies this`stale, this`held, disk
      ensures Valid() && held == o.held && Settled(g, o.fat, fat, o.stale, stale, [])
    {
      assert multiset(bhs) <= held && multiset(fe.bhs) <= held
        && held - multiset(fe.bhs) - multiset(bhs) == o.held && multiset(bhs) <= held - multiset(fe.bhs) by {
        BookedRelease(held, o.held, bhs, fe.bhs);
      }
      SettledMirrored(g, o.fat, fat, o.stale, stale, bhs);
      var _ := EntBrelse(fe);
      MirrorBhs(bhs);
      ReleaseBhs(bhs);
    }

    /** The way out with the round over and the chain too short: the counter becomes right and
        the partial chain is freed. */
    method GiveBack(cl: seq<int>, fe: FatEntry, bhs: seq<nat>, ghost o: Origin, ghost k: nat)
      requires Scanning(o, k, cl, fe.bhs, bhs) && cl == Scan(o.fat, o.prevFree + 1)
      modifies this`fat, this`stale, this`held, this`freeClusters, this`freeClusValid, disk
      ensures Valid() && held == o.held && fat == o.fat && stale <= o.stale && Exact() && freeClusValid
    {
      hide Scanning, Scan, CountFree, Linked, Distinct, Settled, Booked, MirroredExcept, SameData, ChainBlocks, SetOf;
      GivingBack(o, k, cl, fe.bhs, bhs);
      freeClusters := 0;
      freeClusValid := true;
      ReleaseAll(fe, bhs, o.held);
      if |cl| > 0 {
        Rollback(cl, o.fat, o.stale, bhs);
      }
    }

    /** What there is to give back: all entries that were free. */
    lemma GivingBack(o: Origin, k: nat, cl: seq<int>, cur: seq<nat>, bhs: seq<nat>)
      requires Scanning(o, k, cl, cur, bhs) && cl == Scan(o.fat, o.prevFree + 1)
      ensures Valid() && Booked(held, o.held, bhs, cur) && CountFree(fat) == 0
      ensures Linked(o.fat, fat, cl) && Distinct(cl) && forall x :: x in cl ==> o.fat[x] == FAT_ENT_FREE
      ensures Settled(g, o.fat, fat, o.stale, stale, bhs) && SetOf(bhs) == ChainBlocks(g, cl)
      ensures cl == [] ==> fat == o.fat && stale <= o.stale
    {
      hide MirroredExcept, SameData, Booked, Collection;
      ScanExhausts(o.fat, fat, o.prevFree + 1);
      ScanIsAllFree(o.fat, o.prevFree + 1);
      if cl == [] {
        assert fat == o.fat;
        assert SetOf(bhs) == {};
      }
    }

    /** Free a chain that turned out too short; the table and its copies are as before. */
    method Rollback(cl: seq<int>, ghost f0: seq<int>, ghost stale0: set<nat>, ghost bhs: seq<nat>)
      requires Valid() && Linked(f0, fat, cl) && Distinct(cl) && |cl| > 0
      requires forall x :: x in cl ==> f0[x] == FAT_ENT_FREE
      requires Settled(g, f0, fat, stale0, stale, bhs) && Exact()
      requires SetOf(bhs) == ChainBlocks(g, cl)
      modifies this`fat, this`stale, this`held, this`freeClusters, disk
      ensures Valid() && held == old(held) && fat == f0 && stale <= stale0 && Exact()
    {
      RollbackRestores(f0, fat, cl);
      ghost var f1, st1 := fat, stale;
      var _ := FreeClusters(cl[0]);
      forall i | 0 <= i < |cl| ensures BlocksOf(g, cl[i]) !! stale {
        assert cl[i] in cl && f1[cl[i]] == Link(cl, i);
      }
      ChainBlocksFresh(g, cl, stale);
      assert stale <= st1 + SetOf([]);
    }

    // ----- counting --------------------------------------------------------------------

    /** `fat_count_free_clusters`: unless the counter is trusted already, count block by block. */
    method CountFreeClusters()
      requires Valid()
      modifies this`held, this`freeClusters, this`freeClusValid
      ensures Valid() && held == old(held) && freeClusters != -1 && freeClusValid
      ensures if old(freeClusters != -1 && freeClusValid) then freeClusters == old(freeClusters) else Exact()
    {
      hide Decodes, MirroredExcept, SameData, Booked, CountFree;
      if freeClusters != -1 && freeClusValid {
        return;
      }
      var fe, free := CountLoop();
      freeClusters := free;
      freeClusValid := true;
      BookedRelease(held, old(held), [], fe.bhs);
      var _ := EntBrelse(fe);
    }

    /** The loop over the blocks of the table. */
    method CountLoop() returns (fe: FatEntry, free: nat)
      requires Valid()
      modifies this`held
      ensures Valid() && Booked(held, old(held), [], fe.bhs) && free == CountFree(fat)
    {
      hide Decodes, MirroredExcept, SameData, FreeBelow;
      TableLength();
      free := 0;
      fe := SetEntry(InitEntry(), FAT_START_ENT);
      NothingBelow(fat);
      while fe.entry < g.maxCluster
        invariant Valid() && FAT_START_ENT <= fe.entry <= g.maxCluster
        invariant Booked(held, old(held), [], fe.bhs)
        invariant free == FreeBelow(fat, fe.entry)
      {
        fe, free := CountBlock(fe, free, old(held));
      }
    }

    lemma TableLength()
      requires Valid()
      ensures |fat| == g.maxCluster
    {
    }

    method CountBlock(fe0: FatEntry, free0: nat, ghost held0: multiset<nat>) returns (fe: FatEntry, free: nat)
      requires Valid() && FAT_START_ENT <= fe0.entry < g.maxCluster && free0 == FreeBelow(fat, fe0.entry)
      requires Booked(held, held0, [], fe0.bhs)
      modifies this`held
      ensures fe0.entry < fe.entry <= g.maxCluster && free == FreeBelow(fat, fe.entry)
      ensures Booked(held, held0, [], fe.bhs)
    {
      BookedRelease(held, held0, [], fe0.bhs);
      ghost var h0 := held;
      free := free0;
      fe := EntReadBlock(fe0);
      BookedCurrent(h0, held0, [], fe0.bhs, held, fe.bhs);
      var more := true;
      while more
        invariant fe0.entry <= fe.entry <= g.maxCluster && (more || fe0.entry < fe.entry)
        invariant Booked(held, held0, [], fe.bhs) && free == FreeBelow(fat, fe.entry)
        invariant more ==> Points(g, fe)
        decreases more, g.maxCluster - fe.entry
      {
        more, fe, free := CountEntry(fe, free, held0);
      }
    }

    method CountEntry(fe0: FatEntry, free0: nat, ghost held0: multiset<nat>)
      returns (more: bool, fe: FatEntry, free: nat)
      requires Valid() && Points(g, fe0) && free0 == FreeBelow(fat, fe0.entry)
      requires Booked(held, held0, [], fe0.bhs)
      modifies this`held
      ensures fe.entry == fe0.entry + 1 && free == FreeBelow(fat, fe.entry)
      ensures Booked(held, held0, [], fe.bhs) && (more ==> Points(g, fe))
    {
      hide MirroredExcept, SameData, Booked;
      BookedRelease(held, held0, [], fe0.bhs);
      var next := EntGet(fe0);
      free := if next == FAT_ENT_FREE then free0 + 1 else free0;
      ghost var h0 := held;
      more, fe := FatEntNext(fe0);
      BookedCurrent(h0, held0, [], fe0.bhs, held, fe.bhs);
    }
  }
}
