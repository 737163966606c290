/** Undelete (fat_recovery_lecture/fat_recovery.c): the driver's removal keeps a file's name by
    moving it up one byte, and this program moves it back and ends the file's one cluster again.
    It works on the bytes of the whole disk, FAT32 only, and on the first cluster of the root
    directory. */
module Recovery {
  import opened Arithmetic
  import opened EntryCodec
  import opened FatChain
  import opened Layout
  import opened FatVolume
  import opened DirSlots
  import opened DirRecords
  import opened FatDirectory
  import VfatDirectory

  /** Slot `j` of the directory cluster at byte `root`. */
  function SlotAt(d: seq<byte>, root: nat, j: nat): Slot
    requires root + 32 * j + 32 <= |d|
  {
    d[root + 32 * j..root + 32 * j + 32]
  }

  /** `memcmp` of the argument with what follows the first byte of the slot; a long one reaches the
      bytes `behind` it. */
  predicate Begins(s: Slot, behind: seq<byte>, arg: seq<byte>) { arg <= s[1..] + behind }

  /** A deleted entry whose name, from its second byte on, starts with the argument. */
  predicate Matches(s: Slot, behind: seq<byte>, arg: seq<byte>) {
    s[0] == DELETED_FLAG && Begins(s, behind, arg)
  }

  /** The bytes of the cluster from slot `j` on. */
  function From(d: seq<byte>, root: nat, slots: nat, j: nat): seq<byte>
    requires j <= slots && root + 32 * slots <= |d|
  {
    d[root + 32 * j..root + 32 * slots]
  }

  predicate MatchesAt(d: seq<byte>, root: nat, slots: nat, j: nat, arg: seq<byte>)
    requires j < slots && root + 32 * slots <= |d|
  {
    Matches(SlotAt(d, root, j), From(d, root, slots, j + 1), arg)
  }

  /** The loop that moves the name back; its last byte stays. */
  function MovedBack(s: Slot): Slot { s[1..MSDOS_NAME] + s[MSDOS_NAME - 1..] }

  /** FAT_ENT_EOF as it is written. */
  function EofBytes(): (b: seq<byte>)
    ensures |b| == 4 && Le32(b[0], b[1], b[2], b[3]) == FAT_ENT_EOF
  {
    [0xFF, 0xFF, 0xFF, 0x0F]
  }

  /** The first `n` slots hold no match. */
  ghost predicate NoMatch(d: seq<byte>, root: nat, slots: nat, n: nat, arg: seq<byte>) {
    n <= slots && root + 32 * slots <= |d| && forall j :: 0 <= j < n ==> !MatchesAt(d, root, slots, j, arg)
  }

  ghost predicate FirstMatch(d: seq<byte>, root: nat, slots: nat, arg: seq<byte>, j: nat) {
    j < slots && NoMatch(d, root, slots, j, arg) && MatchesAt(d, root, slots, j, arg)
  }

  /** Where the link of the entry's first cluster would lie in the first table. */
  function LinkAt(table: nat, s: Slot): nat { table + 4 * VfatDirectory.GetStart(true, s) }

  /** The disk after the recovery of slot `j`. */
  function Recovered(d: seq<byte>, table: nat, root: nat, j: nat): (r: seq<byte>)
    requires root + 32 * j + 32 <= |d|
    ensures |r| == |d|
  {
    var s := SlotAt(d, root, j);
    Overwritten(Overwritten(d, root + 32 * j, MovedBack(s)), LinkAt(table, s), EofBytes())
  }

  /** The name moves back one byte, first byte first. */
  method MoveBack(s: Slot) returns (r: Slot)
    ensures r == MovedBack(s)
  {
    var i := 0;
    r := s;
    while i < MSDOS_NAME - 1
      invariant 0 <= i <= MSDOS_NAME - 1 && r == s[1..1 + i] + s[i..]
    {
      r := r[i := r[i + 1]];
      i := i + 1;
    }
  }

  /** `fseek` and `fwrite`, whose results are not looked at: what lies beyond the disk is lost. */
  method WriteDisk(disk: array<byte>, at: nat, b: seq<byte>)
    modifies disk
    ensures disk[..] == Overwritten(old(disk[..]), at, b)
  {
    ghost var d := disk[..];
    forall i | 0 <= i < |b| && at + i < disk.Length {
      disk[at + i] := b[i];
    }
    forall i | 0 <= i < disk.Length ensures disk[i] == if at <= i < at + |b| then b[i - at] else d[i] {
      if at <= i < at + |b| {
        assert i == at + (i - at);
      }
    }
  }

  /** The recovery loop of `main`: the first entry that matches is put back and the link of its
      start cluster set to end of file; otherwise the disk stays as it is. */
  method Recover(disk: array<byte>, table: nat, root: nat, clusterSize: nat, arg: seq<byte>)
      returns (found: bool, j: nat)
    requires clusterSize % 32 == 0 && root + clusterSize <= disk.Length
    modifies disk
    ensures found ==> FirstMatch(old(disk[..]), root, clusterSize / 32, arg, j)
    ensures found ==> disk[..] == Recovered(old(disk[..]), table, root, j)
    ensures !found ==> NoMatch(disk[..], root, clusterSize / 32, clusterSize / 32, arg) && disk[..] == old(disk[..])
  {
    hide Matches, MovedBack, LinkAt, EofBytes, Overwritten;
    ghost var d := disk[..];
    j := 0;
    while 32 * j < clusterSize
      invariant 0 <= j <= clusterSize / 32 && disk[..] == d && NoMatch(d, root, clusterSize / 32, j, arg)
    {
      var s: Slot := disk[root + 32 * j..root + 32 * j + 32];
      var behind := disk[root + 32 * j + 32..root + clusterSize];
      assert s == SlotAt(d, root, j) && behind == From(d, root, clusterSize / 32, j + 1);
      if Matches(s, behind, arg) {
        var r := MoveBack(s);
        WriteDisk(disk, root + 32 * j, r);
        WriteDisk(disk, LinkAt(table, s), EofBytes());
        return true, j;
      }
      j := j + 1;
    }
    found := false;
  }

  // ----- one slot ---------------------------------------------------------------------------

  /** Moving the name up for the removal and back for the recovery keeps its first ten bytes and
      puts the tenth in place of the eleventh: the entry is as it was exactly when these two are
      equal, as in a name whose extension ends in blanks. */
  lemma ShiftAndBack(s: Slot)
    ensures MovedBack(Shifted(s)) == s[10 := s[9]]
    ensures MovedBack(Shifted(s)) == s <==> s[9] == s[10]
  {
    var r := MovedBack(Shifted(s));
    forall i | 0 <= i < 32 ensures r[i] == s[10 := s[9]][i] {
    }
    assert s[10 := s[9]][10] == s[9];
    if s[9] == s[10] {
      assert s[10 := s[9]] == s;
    }
  }

  /** What a shifted slot holds behind its first byte: all of the slot but its eleventh byte. */
  function Kept(s: Slot): (r: seq<byte>)
    ensures |r| == 31
  {
    s[..MSDOS_NAME - 1] + s[MSDOS_NAME..]
  }

  lemma ShiftedMatches(s: Slot, behind: seq<byte>, arg: seq<byte>)
    ensures Matches(Shifted(s), behind, arg) <==> arg <= Kept(s) + behind
  {
    assert Shifted(s)[1..] == Kept(s);
  }

  lemma DeletedMatches(s: Slot, behind: seq<byte>, arg: seq<byte>)
    ensures Matches(Deleted(s), behind, arg) <==> Begins(s, behind, arg)
  {
    assert Deleted(s)[1..] == s[1..];
  }

  /** The start cluster is touched neither by the shift nor by moving back. */
  lemma StartKept(s: Slot)
    ensures VfatDirectory.GetStart(true, Shifted(s)) == VfatDirectory.GetStart(true, s)
  {
    var r := Shifted(s);
    assert r[26] == s[26] && r[27] == s[27] && r[20] == s[20] && r[21] == s[21];
  }

  // ----- the removal, on the disk -----------------------------------------------------------

  /** The first slots of the directory are those of the cluster at byte `root`. */
  ghost predicate OnDisk(d: seq<byte>, root: nat, slots: nat, es: seq<Slot>) {
    root + 32 * slots <= |d| && slots <= |es| && forall i :: 0 <= i < slots ==> SlotAt(d, root, i) == es[i]
  }

  /** The slots of the cluster. */
  function Cluster(d: seq<byte>, root: nat, slots: nat): (es: seq<Slot>)
    requires root + 32 * slots <= |d|
    ensures |es| == slots && forall i :: 0 <= i < slots ==> es[i] == SlotAt(d, root, i)
  {
    seq(slots, i requires 0 <= i < slots => SlotAt(d, root, i))
  }

  /** Only the bytes `lo .. hi` differ, and the tables. */
  ghost predicate KeptBut(g: Layout, d: seq<byte>, d': seq<byte>, lo: nat, hi: nat) {
    && |d'| == |d|
    && forall x {:trigger KeptAt(g, d, d', x)} :: 0 <= x < |d| && !(lo <= x < hi) ==> KeptAt(g, d, d', x)
  }

  /** Only the bytes `lo .. hi` differ. */
  ghost predicate Outside(d: seq<byte>, d': seq<byte>, lo: nat, hi: nat) {
    |d'| == |d| && forall x :: 0 <= x < |d| && !(lo <= x < hi) ==> d'[x] == d[x]
  }

  lemma OutsideKept(g: Layout, d: seq<byte>, d': seq<byte>, d'': seq<byte>, lo: nat, hi: nat)
    requires Outside(d, d', lo, hi) && SameData(g, d', d'')
    ensures KeptBut(g, d, d'', lo, hi)
  {
    forall x | 0 <= x < |d| && !(lo <= x < hi) ensures KeptAt(g, d, d'', x) {
      assert KeptAt(g, d', d'', x);
    }
  }

  /** The slots `off .. off + nr` of the cluster are removed as `fat_remove_entries` does. */
  ghost predicate SlotsRemoved(
    d0: seq<byte>, d1: seq<byte>, root: nat, slots: nat, off: nat, cut: nat, nr: nat)
  {
    && 1 <= nr && off + nr <= slots && root + 32 * slots <= |d0| == |d1|
    && cut < off + nr && Removed(Cluster(d0, root, slots), Cluster(d1, root, slots), off, cut, off + nr)
  }

  /** The last of them was the entry of cluster `c`, the only one of its file. */
  ghost predicate EntryOf(fat: seq<int>, d0: seq<byte>, root: nat, off: nat, nr: nat, c: nat) {
    && 1 <= nr && root + 32 * (off + nr) <= |d0| && IsChain(fat, [c])
    && VfatDirectory.GetStart(true, SlotAt(d0, root, off + nr - 1)) == c
  }

  /** The first table is as it was, but for the link of cluster `c`, which is free. */
  ghost predicate LinkFreed(g: Layout, fat: seq<int>, d1: seq<byte>, c: nat) {
    c < |fat| && Decodes(g, d1, fat[c := FAT_ENT_FREE])
  }

  /** What the removal of a file with the slots `off .. off + nr` and the single cluster `c` does
      to the disk: its slots are removed, the first table has the cluster free, and no other byte
      outside the tables changes. */
  ghost predicate RemovedOnDisk(
    g: Layout, fat: seq<int>, d0: seq<byte>, d1: seq<byte>, root: nat, slots: nat, off: nat, cut: nat, nr: nat, c: nat)
  {
    && SlotsRemoved(d0, d1, root, slots, off, cut, nr) && EntryOf(fat, d0, root, off, nr, c)
    && LinkFreed(g, fat, d1, c)
    && KeptBut(g, d0, d1, root + 32 * off, root + 32 * (off + nr))
  }

  lemma WrittenSlot(d: seq<byte>, root: nat, j: nat, i: nat, b: seq<byte>)
    requires |b| == 32 && root + 32 * j + 32 <= |d| && root + 32 * i + 32 <= |d|
    ensures SlotAt(Overwritten(d, root + 32 * j, b), root, i) == if i == j then b else SlotAt(d, root, i)
  {
  }

  lemma SameOutside(d: seq<byte>, lo: nat, hi: nat)
    ensures Outside(d, d, lo, hi)
  {
  }

  lemma WrittenInside(d0: seq<byte>, d: seq<byte>, root: nat, off: nat, nr: nat, k: nat, b: seq<byte>)
    requires Outside(d0, d, root + 32 * off, root + 32 * (off + nr)) && k < nr && |b| == 32
    ensures Outside(d0, Overwritten(d, root + 32 * (off + k), b), root + 32 * off, root + 32 * (off + nr))
  {
  }

  /** The slots changed by a removal reach the disk. */
  method StoreSlots(vol: Volume, dir: Directory, root: nat, slots: nat, off: nat, nr: nat, ghost was: seq<Slot>)
    requires vol.Valid() && TablesEnd(vol.g) <= root && off + nr <= slots
    requires OnDisk(vol.disk[..], root, slots, was) && OnlyAt(was, dir.entries, off, nr)
    modifies vol`data, vol.disk
    ensures vol.Valid() && OnDisk(vol.disk[..], root, slots, dir.entries)
    ensures nr > 0 ==> vol.data == vol.disk[..]
    ensures Outside(old(vol.disk[..]), vol.disk[..], root + 32 * off, root + 32 * (off + nr))
  {
    hide Decodes, MirroredExcept, SameData, SlotAt, Overwritten, Layout.Valid, Outside;
    var k := 0;
    SameOutside(vol.disk[..], root + 32 * off, root + 32 * (off + nr));
    while k < nr
      invariant Outside(old(vol.disk[..]), vol.disk[..], root + 32 * off, root + 32 * (off + nr))
      invariant 0 <= k <= nr && vol.Valid() && root + 32 * slots <= vol.disk.Length
      invariant k > 0 ==> vol.data == vol.disk[..]
      invariant forall i :: 0 <= i < slots ==>
        SlotAt(vol.disk[..], root, i) == if i < off + k then dir.entries[i] else was[i]
    {
      ghost var d := vol.disk[..];
      vol.WriteData(root + 32 * (off + k), dir.entries[off + k]);
      forall i | 0 <= i < slots
        ensures SlotAt(vol.disk[..], root, i) == if i < off + k + 1 then dir.entries[i] else was[i]
      {
        WrittenSlot(d, root, off + k, i, dir.entries[off + k]);
      }
      WrittenInside(old(vol.disk[..]), d, root, off, nr, k, dir.entries[off + k]);
      k := k + 1;
    }
  }

  lemma RemovedOnlyAt(es: seq<Slot>, es': seq<Slot>, off: nat, cut: nat, hi: nat)
    requires Removed(es, es', off, cut, hi)
    ensures OnlyAt(es, es', off, hi - off)
  {
  }

  lemma DataKept(g: Layout, d: seq<byte>, d': seq<byte>, root: nat, slots: nat, es: seq<Slot>)
    requires SameData(g, d, d') && TablesEnd(g) <= root && OnDisk(d, root, slots, es)
    ensures OnDisk(d', root, slots, es)
  {
    forall i | 0 <= i < slots ensures SlotAt(d', root, i) == es[i] {
      forall x | root + 32 * i <= x < root + 32 * i + 32 ensures d'[x] == d[x] {
        assert KeptAt(g, d, d', x);
      }
      assert SlotAt(d', root, i) == SlotAt(d, root, i);
    }
  }

  /** Freeing a chain of one cluster frees that cluster. */
  lemma FreeOne(fat: seq<int>, c: int)
    requires IsChain(fat, [c])
    ensures IsCluster(fat, c) && fat[c] == FAT_ENT_EOF && FreeWalk(fat, c).fat == fat[c := FAT_ENT_FREE]
  {
    assert [c][0] == c && fat[[c][0]] == Link([c], 0);
  }

  /** Freeing a one-cluster chain succeeds, so no block is left unlike its copies that was not. */
  lemma FreedWell(g: Layout, fat: seq<int>, c: int, fat': seq<int>, stale: set<nat>, stale': set<nat>)
    requires IsChain(fat, [c]) && g.blockSize > 0
    requires FreeWalk(fat, c).ok ==> Settled(g, fat, fat', stale, stale', [])
    ensures stale' <= stale
  {
    FreeWalkChain(fat, [c]);
    assert [c][0] == c && SetOf([]) == {};
  }

  /** Deleting a file whose slots stand in the first cluster of the root directory and whose data
      is one cluster: `fat_remove_entries`, then `fat_free_clusters`. */
  method DeleteFile(vol: Volume, dir: Directory, root: nat, slots: nat, off: nat, nr: nat, cur: Cursor)
    requires vol.Valid() && vol.g.ft == Fat32 && dir.Valid() && TablesEnd(vol.g) <= root
    requires OnDisk(vol.disk[..], root, slots, dir.entries)
    requires dir.Points(cur) && 1 <= nr && cur.pos == off + nr <= slots
    requires IsChain(vol.fat, [VfatDirectory.GetStart(true, dir.entries[off + nr - 1])])
    modifies dir`entries, vol`fat, vol`stale, vol`held, vol`freeClusters, vol`data, vol.disk
    ensures vol.Valid() && dir.Valid() && OnDisk(vol.disk[..], root, slots, dir.entries)
    ensures old(vol.stale) == {} ==> vol.stale == {} && MirroredExcept(vol.g, vol.disk[..], {})
    ensures RemovedOnDisk(vol.g, old(vol.fat), old(vol.disk[..]), vol.disk[..], root, slots, off,
      if cur.bh <= off then off else cur.bh, nr, VfatDirectory.GetStart(true, old(dir.entries[off + nr - 1])))
  {
    hide Decodes, MirroredExcept, SameData, FreeWalk, IsChain, SlotAt, FreedBlocks, Removed, OnlyAt, Settled;
    hide Outside, KeptBut, SlotsRemoved, EntryOf;
    ghost var d0, was, fat := vol.disk[..], dir.entries, vol.fat;
    var start := VfatDirectory.GetStart(true, dir.entries[off + nr - 1]);
    dir.RemoveEntries(off, nr, cur);
    RemovedOnlyAt(was, dir.entries, off, if cur.bh <= off then off else cur.bh, off + nr);
    StoreSlots(vol, dir, root, slots, off, nr, was);
    ghost var d := vol.disk[..];
    ghost var stale := vol.stale;
    var status := vol.FreeClusters(start);
    FreedWell(vol.g, fat, start, vol.fat, stale, vol.stale);
    FreeOne(fat, start);
    DataKept(vol.g, d, vol.disk[..], root, slots, dir.entries);
    OutsideKept(vol.g, d0, d, vol.disk[..], root + 32 * off, root + 32 * (off + nr));
    ClusterRemoved(d0, vol.disk[..], root, slots, was, dir.entries, off, if cur.bh <= off then off else cur.bh, nr);
    EntryThere(fat, d0, root, slots, was, off, nr, start);
  }

  lemma EntryThere(fat: seq<int>, d0: seq<byte>, root: nat, slots: nat, es: seq<Slot>, off: nat, nr: nat, c: nat)
    requires OnDisk(d0, root, slots, es) && 1 <= nr && off + nr <= slots
    requires VfatDirectory.GetStart(true, es[off + nr - 1]) == c && IsChain(fat, [c])
    ensures EntryOf(fat, d0, root, off, nr, c)
  {
    assert SlotAt(d0, root, off + nr - 1) == es[off + nr - 1];
  }

  lemma ClusterRemoved(
    d0: seq<byte>, d1: seq<byte>, root: nat, slots: nat, es: seq<Slot>, es': seq<Slot>, off: nat, cut: nat, nr: nat)
    requires OnDisk(d0, root, slots, es) && OnDisk(d1, root, slots, es') && |d0| == |d1|
    requires Removed(es, es', off, cut, off + nr) && 1 <= nr && off + nr <= slots && cut < off + nr
    ensures SlotsRemoved(d0, d1, root, slots, off, cut, nr)
  {
    hide Shifted, Deleted, SlotAt;
    var a, b := Cluster(d0, root, slots), Cluster(d1, root, slots);
    forall i | 0 <= i < slots
      ensures b[i] == if cut <= i < off + nr then Shifted(a[i]) else if off <= i < cut then Deleted(a[i]) else a[i]
    {
      assert a[i] == es[i] && b[i] == es'[i];
    }
  }

  // ----- which entry is found ---------------------------------------------------------------

  /** Slot `i` once the slots `off .. hi` are removed. */
  function SlotGone(s: Slot, i: nat, off: nat, cut: nat, hi: nat): Slot {
    if cut <= i < hi then Shifted(s) else if off <= i < cut then Deleted(s) else s
  }

  /** The bytes of the cluster from slot `i` on, as the removal of `off .. hi` will leave them. */
  function GoneFrom(d0: seq<byte>, root: nat, slots: nat, off: nat, cut: nat, hi: nat, i: nat): seq<byte>
    requires i <= slots && root + 32 * slots <= |d0|
    decreases slots - i
  {
    if i == slots then []
    else SlotGone(SlotAt(d0, root, i), i, off, cut, hi) + GoneFrom(d0, root, slots, off, cut, hi, i + 1)
  }

  /** The argument finds the removed file: no deleted slot before its own matches, none of its own
      long slots does, and the kept bytes of its entry start with the argument. */
  ghost predicate FindsFile(
    d0: seq<byte>, root: nat, slots: nat, off: nat, cut: nat, nr: nat, arg: seq<byte>)
  {
    && 1 <= nr && off <= cut < off + nr <= slots && root + 32 * slots <= |d0|
    && (forall i :: 0 <= i < off + nr - 1 ==> !WillMatch(d0, root, slots, off, cut, nr, i, arg))
    && WillMatch(d0, root, slots, off, cut, nr, off + nr - 1, arg)
  }

  /** Will slot `i` match once the slots `off .. off + nr` are removed? */
  predicate WillMatch(
    d0: seq<byte>, root: nat, slots: nat, off: nat, cut: nat, nr: nat, i: nat, arg: seq<byte>)
    requires i < slots && root + 32 * slots <= |d0|
  {
    var s, behind := SlotAt(d0, root, i), GoneFrom(d0, root, slots, off, cut, off + nr, i + 1);
    if i < off || i >= off + nr then Matches(s, behind, arg)
    else if i < cut then Begins(s, behind, arg)
    else arg <= Kept(s) + behind
  }

  lemma GoneSlot(
    d0: seq<byte>, d1: seq<byte>, root: nat, slots: nat, off: nat, cut: nat, nr: nat, i: nat)
    requires SlotsRemoved(d0, d1, root, slots, off, cut, nr) && i < slots
    ensures SlotGone(SlotAt(d0, root, i), i, off, cut, off + nr) == SlotAt(d1, root, i)
  {
    hide Shifted, Deleted, SlotAt;
    assert Cluster(d0, root, slots)[i] == SlotAt(d0, root, i) && Cluster(d1, root, slots)[i] == SlotAt(d1, root, i);
  }

  lemma FromSlot(d: seq<byte>, root: nat, slots: nat, i: nat)
    requires i < slots && root + 32 * slots <= |d|
    ensures From(d, root, slots, i) == SlotAt(d, root, i) + From(d, root, slots, i + 1)
  {
  }

  lemma {:induction false} GoneIs(
    d0: seq<byte>, d1: seq<byte>, root: nat, slots: nat, off: nat, cut: nat, nr: nat, i: nat)
    requires SlotsRemoved(d0, d1, root, slots, off, cut, nr) && i <= slots
    ensures GoneFrom(d0, root, slots, off, cut, off + nr, i) == From(d1, root, slots, i)
    decreases slots - i
  {
    hide Removed, SlotGone, SlotAt;
    if i < slots {
      GoneIs(d0, d1, root, slots, off, cut, nr, i + 1);
      GoneSlot(d0, d1, root, slots, off, cut, nr, i);
      FromSlot(d1, root, slots, i);
    }
  }

  lemma RemovedSlotMatches(
    d0: seq<byte>, d1: seq<byte>, root: nat, slots: nat, off: nat, cut: nat, nr: nat, arg: seq<byte>, i: nat)
    requires SlotsRemoved(d0, d1, root, slots, off, cut, nr) && i < slots
    ensures MatchesAt(d1, root, slots, i, arg) <==> WillMatch(d0, root, slots, off, cut, nr, i, arg)
  {
    hide GoneFrom, From, Matches, Shifted, Deleted, Kept;
    var s, behind := SlotAt(d0, root, i), From(d1, root, slots, i + 1);
    assert Cluster(d0, root, slots)[i] == s && Cluster(d1, root, slots)[i] == SlotAt(d1, root, i);
    GoneIs(d0, d1, root, slots, off, cut, nr, i + 1);
    ShiftedMatches(s, behind, arg);
    DeletedMatches(s, behind, arg);
  }

  /** The program picks the removed file exactly under that condition on the disk before. */
  lemma FoundExactly(
    d0: seq<byte>, d1: seq<byte>, root: nat, slots: nat, off: nat, cut: nat, nr: nat, arg: seq<byte>)
    requires SlotsRemoved(d0, d1, root, slots, off, cut, nr)
    ensures FirstMatch(d1, root, slots, arg, off + nr - 1) <==> FindsFile(d0, root, slots, off, cut, nr, arg)
  {
    hide MatchesAt, WillMatch;
    forall i | 0 <= i < off + nr
      ensures MatchesAt(d1, root, slots, i, arg) <==> WillMatch(d0, root, slots, off, cut, nr, i, arg)
    {
      RemovedSlotMatches(d0, d1, root, slots, off, cut, nr, arg, i);
    }
  }

  // ----- the recovery -------------------------------------------------------------------------

  lemma EofEntry(d: seq<byte>, base: nat, c: nat)
    requires base + 4 * c + 4 <= |d|
    ensures Entry(Fat32, Overwritten(d, base + 4 * c, EofBytes()), base, c) == FAT_ENT_EOF
  {
    var at := base + 4 * c;
    var r := Overwritten(d, at, EofBytes());
    assert r[at] == EofBytes()[0] && r[at + 1] == EofBytes()[1];
    assert r[at + 2] == EofBytes()[2] && r[at + 3] == EofBytes()[3];
    assert Raw(Fat32, r, base, c) == FAT_ENT_EOF;
  }

  lemma OtherEntry(d: seq<byte>, base: nat, c: nat, x: nat)
    requires base + 4 * c + 4 <= |d| && base + 4 * x + 4 <= |d| && x != c
    ensures Entry(Fat32, Overwritten(d, base + 4 * c, EofBytes()), base, x) == Entry(Fat32, d, base, x)
  {
    var a, r := base + 4 * x, Overwritten(d, base + 4 * c, EofBytes());
    assert r[a] == d[a] && r[a + 1] == d[a + 1] && r[a + 2] == d[a + 2] && r[a + 3] == d[a + 3];
  }

  /** The four bytes written make the link read as end of file and no other entry different. */
  lemma EofDecodes(g: Layout, d: seq<byte>, fat: seq<int>, c: nat)
    requires g.Valid() && g.ft == Fat32 && g.Holds(d) && Decodes(g, d, fat) && c < g.maxCluster
    ensures g.Base() + 4 * c + 4 <= |d|
    ensures Decodes(g, Overwritten(d, g.Base() + 4 * c, EofBytes()), fat[c := FAT_ENT_EOF])
  {
    DecodedEntry(g, d, fat, c);
    var r := Overwritten(d, g.Base() + 4 * c, EofBytes());
    forall x | 0 <= x < g.maxCluster
      ensures Fits(g.ft, r, g.Base(), x) && fat[c := FAT_ENT_EOF][x] == Entry(g.ft, r, g.Base(), x)
    {
      DecodedEntry(g, d, fat, x);
      if x == c {
        EofEntry(d, g.Base(), c);
      } else {
        OtherEntry(d, g.Base(), c, x);
      }
    }
  }

  /** The disk after the recovery of slot `j`: the table is the one before the removal, the entry
      is the old one but for the eleventh byte of its name, and no other slot changes. */
  ghost predicate RecoveredOnDisk(
    g: Layout, fat: seq<int>, d0: seq<byte>, d1: seq<byte>, d2: seq<byte>, root: nat, slots: nat, j: nat)
  {
    && j < slots && root + 32 * slots <= |d0| == |d1| == |d2|
    && Decodes(g, d2, fat)
    && SlotAt(d2, root, j) == SlotAt(d0, root, j)[10 := SlotAt(d0, root, j)[9]]
    && forall i :: 0 <= i < slots && i != j ==> SlotAt(d2, root, i) == SlotAt(d1, root, i)
  }

  lemma SlotBehind(d: seq<byte>, at: nat, root: nat, i: nat)
    requires at + 4 <= root && root + 32 * i + 32 <= |d|
    ensures SlotAt(Overwritten(d, at, EofBytes()), root, i) == SlotAt(d, root, i)
  {
  }

  lemma BeforeDirectory(g: Layout, root: nat, c: nat)
    requires g.Valid() && g.ft == Fat32 && TablesEnd(g) <= root && c < g.maxCluster
    ensures g.Base() + 4 * c + 4 <= root
  {
    OffsetMono(g, c);
    TableEndBound(g);
    Distribute(g.fatStart, g.fatLength, g.blockSize);
  }

  lemma RemovedEntry(d0: seq<byte>, d1: seq<byte>, root: nat, slots: nat, off: nat, cut: nat, nr: nat)
    requires SlotsRemoved(d0, d1, root, slots, off, cut, nr)
    ensures SlotAt(d1, root, off + nr - 1) == Shifted(SlotAt(d0, root, off + nr - 1))
  {
    var j := off + nr - 1;
    assert Cluster(d0, root, slots)[j] == SlotAt(d0, root, j) && Cluster(d1, root, slots)[j] == SlotAt(d1, root, j);
  }

  /** What the program writes: the entry with its name moved back, and EOF at the file's link. */
  lemma RecoveredBytes(
    table: nat, fat: seq<int>, d0: seq<byte>, d1: seq<byte>, root: nat, slots: nat, off: nat, cut: nat, nr: nat, c: nat)
    requires SlotsRemoved(d0, d1, root, slots, off, cut, nr) && EntryOf(fat, d0, root, off, nr, c)
    ensures Recovered(d1, table, root, off + nr - 1)
         == Overwritten(Overwritten(d1, root + 32 * (off + nr - 1), MovedBack(Shifted(SlotAt(d0, root, off + nr - 1)))),
                        table + 4 * c, EofBytes())
  {
    RemovedEntry(d0, d1, root, slots, off, cut, nr);
    StartKept(SlotAt(d0, root, off + nr - 1));
  }

  lemma TableRecovered(
    g: Layout, fat: seq<int>, d0: seq<byte>, d1: seq<byte>, root: nat, slots: nat, off: nat, cut: nat, nr: nat, c: nat)
    requires g.Valid() && g.ft == Fat32 && g.Holds(d1) && TablesEnd(g) <= root && |fat| == g.maxCluster
    requires SlotsRemoved(d0, d1, root, slots, off, cut, nr) && EntryOf(fat, d0, root, off, nr, c)
    requires LinkFreed(g, fat, d1, c)
    ensures Decodes(g, Recovered(d1, g.Base(), root, off + nr - 1), fat)
  {
    hide Removed, Layout.Valid, SlotAt;
    var j := off + nr - 1;
    RecoveredBytes(g.Base(), fat, d0, d1, root, slots, off, cut, nr, c);
    FreeOne(fat, c);
    var mid := Overwritten(d1, root + 32 * j, MovedBack(Shifted(SlotAt(d0, root, j))));
    MidDecodes(g, d1, mid, fat[c := FAT_ENT_FREE], root);
    EofDecodes(g, mid, fat[c := FAT_ENT_FREE], c);
    assert fat[c := FAT_ENT_FREE][c := FAT_ENT_EOF] == fat;
  }

  lemma SlotsRecovered(d: seq<byte>, at: nat, root: nat, slots: nat, j: nat, s: Slot)
    requires at + 4 <= root && root + 32 * slots <= |d| && j < slots
    ensures forall i :: 0 <= i < slots ==>
      SlotAt(Overwritten(Overwritten(d, root + 32 * j, s), at, EofBytes()), root, i)
      == if i == j then s else SlotAt(d, root, i)
  {
    hide SlotAt;
    var mid := Overwritten(d, root + 32 * j, s);
    forall i | 0 <= i < slots
      ensures SlotAt(Overwritten(mid, at, EofBytes()), root, i) == if i == j then s else SlotAt(d, root, i)
    {
      WrittenSlot(d, root, j, i, s);
      SlotBehind(mid, at, root, i);
    }
  }

  /** The recovery of a removed one-cluster file, with or without a long name: when the program
      finds it, the table decodes as before the removal, its entry is as before but for the
      eleventh byte of the name, and every other slot is left as the removal made it. */
  lemma DeleteThenRecover(
    g: Layout, fat: seq<int>, d0: seq<byte>, d1: seq<byte>, root: nat, slots: nat, off: nat, cut: nat, nr: nat, c: nat)
    requires g.Valid() && g.ft == Fat32 && g.Holds(d1) && TablesEnd(g) <= root && |fat| == g.maxCluster
    requires SlotsRemoved(d0, d1, root, slots, off, cut, nr) && EntryOf(fat, d0, root, off, nr, c)
    requires LinkFreed(g, fat, d1, c)
    ensures RecoveredOnDisk(g, fat, d0, d1, Recovered(d1, g.Base(), root, off + nr - 1), root, slots, off + nr - 1)
  {
    hide Removed, Decodes, SlotAt, MovedBack, Shifted, Layout.Valid;
    var j := off + nr - 1;
    var s0 := SlotAt(d0, root, j);
    RecoveredBytes(g.Base(), fat, d0, d1, root, slots, off, cut, nr, c);
    TableRecovered(g, fat, d0, d1, root, slots, off, cut, nr, c);
    ShiftAndBack(s0);
    FreeOne(fat, c);
    BeforeDirectory(g, root, c);
    SlotsRecovered(d1, g.Base() + 4 * c, root, slots, j, MovedBack(Shifted(s0)));
  }

  /** The contents of the file are there again: no byte outside the tables and the file's slots is
      other than before the removal. */
  lemma ContentsBack(
    g: Layout, fat: seq<int>, d0: seq<byte>, d1: seq<byte>, root: nat, slots: nat, off: nat, cut: nat, nr: nat, c: nat)
    requires g.Valid() && g.ft == Fat32 && g.Holds(d1) && TablesEnd(g) <= root && |fat| == g.maxCluster
    requires SlotsRemoved(d0, d1, root, slots, off, cut, nr) && EntryOf(fat, d0, root, off, nr, c)
    requires KeptBut(g, d0, d1, root + 32 * off, root + 32 * (off + nr))
    ensures KeptBut(g, d0, Recovered(d1, g.Base(), root, off + nr - 1), root + 32 * off, root + 32 * (off + nr))
  {
    hide Removed, Decodes, SlotAt, MovedBack, Shifted, Layout.Valid, Entry;
    var j := off + nr - 1;
    var r := Recovered(d1, g.Base(), root, j);
    RecoveredBytes(g.Base(), fat, d0, d1, root, slots, off, cut, nr, c);
    FreeOne(fat, c);
    EofPlace(g, c);
    forall x | 0 <= x < |d0| && !(root + 32 * off <= x < root + 32 * (off + nr)) ensures KeptAt(g, d0, r, x) {
      assert KeptAt(g, d0, d1, x);
    }
  }

  lemma MidDecodes(g: Layout, d: seq<byte>, d': seq<byte>, fat: seq<int>, root: nat)
    requires g.Valid() && g.Holds(d) && Decodes(g, d, fat) && |d'| == |d| && TablesEnd(g) <= root
    requires forall i :: 0 <= i < root && i < |d| ==> d'[i] == d[i]
    ensures Decodes(g, d', fat) && g.Holds(d')
  {
    TableEndBound(g);
    DecodesFrame(g, d, d', fat);
  }

  /** The entry is as before the removal exactly when the last two bytes of its name are equal. */
  lemma RecoveryExact(g: Layout, fat: seq<int>, d0: seq<byte>, d1: seq<byte>, d2: seq<byte>,
                      root: nat, slots: nat, j: nat)
    requires RecoveredOnDisk(g, fat, d0, d1, d2, root, slots, j)
    ensures SlotAt(d2, root, j) == SlotAt(d0, root, j) <==> SlotAt(d0, root, j)[9] == SlotAt(d0, root, j)[10]
  {
    var s := SlotAt(d0, root, j);
    assert s[10 := s[9]][10] == s[9];
    if s[9] == s[10] {
      assert s[10 := s[9]] == s;
    }
  }

  // ----- where it goes wrong ------------------------------------------------------------------

  /** A free entry and EOF differ in their first byte. */
  lemma FreeByte(d: seq<byte>, base: nat, c: nat)
    requires Fits(Fat32, d, base, c) && Entry(Fat32, d, base, c) == FAT_ENT_FREE
    ensures d[base + 4 * c] == 0 && EofBytes()[0] == 0xFF
  {
    var a, b := base + 4 * c, EofBytes();
    assert Le32(b[0], b[1], b[2], b[3]) == 0x0FFF_FFFF;
    assert Raw(Fat32, d, base, c) == 0;
  }

  /** The first copy's byte lies behind the first table and before the end of the last. */
  lemma CopyByte(g: Layout, b: nat, o: nat)
    requires g.Valid() && g.TableBlock(b) && o < g.blockSize && g.fats > 1
    ensures (g.fatStart + g.fatLength) * g.blockSize <= (b + 1 * g.fatLength) * g.blockSize + o < TablesEnd(g)
  {
    CopyRange(g, b, 1);
    Mono(g.fatStart + g.fatLength, b + 1 * g.fatLength, g.blockSize);
    Mono(b + 1 * g.fatLength + 1, g.fatStart + g.fats * g.fatLength, g.blockSize);
    Distribute(b + 1 * g.fatLength, 1, g.blockSize);
  }

  /** A byte of a table block that its first copy does not share. */
  lemma Unlike(g: Layout, d: seq<byte>, r: seq<byte>, b: nat, o: nat)
    requires g.TableBlock(b) && o < g.blockSize && g.fats > 1 && |r| == |d| && MirroredExcept(g, d, {})
    requires 0 <= b * g.blockSize + o < |d| && r[b * g.blockSize + o] != d[b * g.blockSize + o]
    requires var a := (b + 1 * g.fatLength) * g.blockSize + o; 0 <= a < |d| ==> r[a] == d[a]
    ensures !MirroredExcept(g, r, {})
  {
    assert Mirrored(g, d, b) && SameAt(g, d, b, 1, o);
    assert !SameAt(g, r, b, 1, o);
    assert !Mirrored(g, r, b);
  }

  /** EOF written over a free entry of the first table alone leaves its block unlike its copies. */
  lemma OneTableWritten(g: Layout, d: seq<byte>, r: seq<byte>, c: nat)
    requires g.Valid() && g.ft == Fat32 && g.Holds(d) && |r| == |d| && g.fats > 1 && c < g.maxCluster
    requires MirroredExcept(g, d, {})
    requires Fits(Fat32, d, g.Base(), c) && Entry(Fat32, d, g.Base(), c) == FAT_ENT_FREE
    requires 0 <= g.Base() + 4 * c < |d| && r[g.Base() + 4 * c] == EofBytes()[0]
    requires forall i :: 0 <= i < |d| && (g.fatStart + g.fatLength) * g.blockSize <= i < TablesEnd(g) ==> r[i] == d[i]
    ensures !MirroredExcept(g, r, {})
  {
    hide MirroredExcept, EofBytes, Entry, Fits, TablesEnd, Layout.Valid, BlockNr, Offset;
    BlockNrSplit(g, c);
    FreeByte(d, g.Base(), c);
    CopyByte(g, BlockNr(g, c), Offset(g, c));
    OffsetInBlock(g, c);
    Unlike(g, d, r, BlockNr(g, c), Offset(g, c));
  }

  lemma OffsetInBlock(g: Layout, c: nat)
    requires g.Valid() && c < g.maxCluster
    ensures Offset(g, c) < g.blockSize
  {
  }

  /** The program writes only the first table: after a deletion that left all copies equal, they are
      equal after the recovery exactly if there is one copy. */
  lemma CopiesDiffer(
    g: Layout, fat: seq<int>, d0: seq<byte>, d1: seq<byte>, root: nat, slots: nat, off: nat, cut: nat, nr: nat, c: nat)
    requires g.Valid() && g.ft == Fat32 && g.Holds(d1) && TablesEnd(g) <= root && |fat| == g.maxCluster
    requires SlotsRemoved(d0, d1, root, slots, off, cut, nr) && EntryOf(fat, d0, root, off, nr, c)
    requires LinkFreed(g, fat, d1, c) && MirroredExcept(g, d1, {})
    ensures MirroredExcept(g, Recovered(d1, g.Base(), root, off + nr - 1), {}) <==> g.fats == 1
  {
    if g.fats > 1 {
      RecoveredBytes(g.Base(), fat, d0, d1, root, slots, off, cut, nr, c);
      FreeOne(fat, c);
      DecodedEntry(g, d1, fat[c := FAT_ENT_FREE], c);
      BeforeDirectory(g, root, c);
      EofPlace(g, c);
      OneTableWritten(g, d1, Recovered(d1, g.Base(), root, off + nr - 1), c);
    }
  }

  lemma EofPlace(g: Layout, c: nat)
    requires g.Valid() && g.ft == Fat32 && c < g.maxCluster
    ensures g.Base() + 4 * c + 4 <= (g.fatStart + g.fatLength) * g.blockSize <= TablesEnd(g)
  {
    OffsetMono(g, c);
    TableEndBound(g);
    Distribute(g.fatStart, g.fatLength, g.blockSize);
  }

  /** The name `a b`, which needs a long slot: its alias is `AB~1`. */
  const SPACED: seq<u16> := [0x61, 0x20, 0x62]
  const SPACED_ALIAS: seq<byte> := [0x41, 0x42, 0x7E, 0x31, 0x20, 0x20, 0x20, 0x20, 0x20, 0x20, 0x20]
  const ARG_A: seq<byte> := [0x41]

  lemma Spelled()
    ensures SPACED == ['a' as int, ' ' as int, 'b' as int] && ARG_A == ['A' as int]
    ensures SPACED_ALIAS[..4] == ['A' as int, 'B' as int, '~' as int, '1' as int]
    ensures forall i :: 4 <= i < 11 ==> SPACED_ALIAS[i] == ' ' as int
  {
  }

  /** The id of a single long slot is the letter `A`: once shifted, it stands where the program
      looks for the name, and the slot's "start cluster" is made of name units. */
  lemma LongSlotMatches(sum: byte, u: seq<u16>, behind: seq<byte>)
    requires |u| == 13
    ensures Matches(Shifted(LongSlot(0x41, sum, u)), behind, ARG_A)
    ensures VfatDirectory.GetStart(true, LongSlot(0x41, sum, u)) == 0x1_0000 * (u[8] as int)
  {
    var s := LongSlot(0x41, sum, u);
    LongSlotUnits(0x41, sum, u);
    ShiftedMatches(s, behind, ARG_A);
    assert (Kept(s) + behind)[..1] == [s[0]] == ARG_A;
    assert Units(s)[8] == Unit(s, 8) == u[8];
    assert s[26] == 0 && s[27] == 0 && Le16(s[20], s[21]) == u[8];
  }

  /** Slots `off` and `off + 1` are a file named `a b`. */
  ghost predicate SpacedFile(d: seq<byte>, root: nat, off: nat) {
    && root + 32 * off + 64 <= |d|
    && SlotAt(d, root, off) == LongSlot(0x41, Checksum(SPACED_ALIAS), Padded(SPACED))
    && ShortName(SlotAt(d, root, off + 1)) == SPACED_ALIAS
  }

  lemma SpacedFileMatches(d: seq<byte>, root: nat, off: nat, behind: seq<byte>)
    requires SpacedFile(d, root, off)
    ensures Matches(Shifted(SlotAt(d, root, off)), behind, ARG_A)
    ensures VfatDirectory.GetStart(true, Shifted(SlotAt(d, root, off))) == 0xFFFF_0000
  {
    hide Checksum, LongSlot, Matches;
    LongSlotMatches(Checksum(SPACED_ALIAS), Padded(SPACED), behind);
    assert Padded(SPACED)[8] == 0xFFFF;
    StartKept(SlotAt(d, root, off));
  }

  /** One byte of an argument is compared with the second byte of the slot. */
  lemma OneByteMatches(s: Slot, behind: seq<byte>, other: seq<byte>)
    ensures Matches(s, behind, ARG_A) <==> Matches(s, other, ARG_A)
  {
    assert (s[1..] + behind)[0] == s[1] == (s[1..] + other)[0];
    assert Begins(s, behind, ARG_A) <==> s[1] == ARG_A[0];
    assert Begins(s, other, ARG_A) <==> s[1] == ARG_A[0];
  }

  /** So a deleted file `a b` is not found by its alias' first letter: the program takes the long
      slot for it, and the file's cluster stays free. */
  lemma LongNameMissed(d0: seq<byte>, d1: seq<byte>, root: nat, slots: nat, off: nat)
    requires SlotsRemoved(d0, d1, root, slots, off, off, 2)
    requires SpacedFile(d0, root, off) && NoMatch(d0, root, slots, off, ARG_A)
    ensures !FindsFile(d0, root, slots, off, off, 2, ARG_A)
    ensures FirstMatch(d1, root, slots, ARG_A, off)
    ensures VfatDirectory.GetStart(true, SlotAt(d1, root, off)) == 0xFFFF_0000
  {
    hide SpacedFile, Shifted, SlotAt, Matches, From, Decodes;
    SpacedFileMatches(d0, root, off, From(d1, root, slots, off + 1));
    assert Cluster(d0, root, slots)[off] == SlotAt(d0, root, off);
    assert Cluster(d1, root, slots)[off] == SlotAt(d1, root, off);
    forall i | 0 <= i < off ensures !MatchesAt(d1, root, slots, i, ARG_A) {
      assert Cluster(d0, root, slots)[i] == SlotAt(d0, root, i) && Cluster(d1, root, slots)[i] == SlotAt(d1, root, i);
      assert !MatchesAt(d0, root, slots, i, ARG_A);
      OneByteMatches(SlotAt(d0, root, i), From(d0, root, slots, i + 1), From(d1, root, slots, i + 1));
    }
    assert MatchesAt(d1, root, slots, off, ARG_A) && !NoMatch(d1, root, slots, off + 1, ARG_A);
    FoundExactly(d0, d1, root, slots, off, off, 2, ARG_A);
    assert !FirstMatch(d1, root, slots, ARG_A, off + 2 - 1);
  }
}
