/** From a directory entry to an inode and back (inode.c `fat_fill_inode`, `__fat_write_inode`): what is
    read from the entry that a create wrote, or that an inode was written back to. */
module EntryInode {
  import opened EntryCodec
  import opened Layout
  import opened DirSlots
  import opened FatTime
  import opened VfatDirectory
  import VolumeDirectory

  /** What an inode takes from its entry on a VFAT mount; the size of a directory is not there. */
  datatype Filled = Filled(
    isDir: bool, start: nat, size: nat, mtime: Timespec, ctime: Timespec, atime: Timespec)

  /** `fat_fill_inode`: kind, start cluster, size and the three times. */
  function FillInode(z: Zone, fat32: bool, s: Slot): Filled {
    Filled(
      s[11] / 16 % 2 == 1 && !IsFree(s),
      GetStart(fat32, s),
      Le32(s[28], s[29], s[30], s[31]),
      Fat2Unix(z, Stamp(Le16(s[22], s[23]), Le16(s[24], s[25]), 0)),
      Fat2Unix(z, Stamp(Le16(s[14], s[15]), Le16(s[16], s[17]), s[13])),
      Fat2Unix(z, Stamp(0, Le16(s[18], s[19]), 0)))
  }

  /** An inode filled from `s` has the fields of `f`. */
  ghost predicate FilledAs(z: Zone, fat32: bool, s: Slot, f: Filled) {
    var i := FillInode(z, fat32, s);
    && i.isDir == f.isDir && i.start == f.start && i.size == f.size
    && i.mtime == f.mtime && i.ctime == f.ctime && i.atime == f.atime
  }

  /** The times of a new entry, `fat_time_unix2fat` of the current one. */
  function StampTimes(z: Zone, now: Timespec): Times
    requires 0 <= now.nsec < 1_000_000_000
  {
    var s := Unix2Fat(z, now);
    StampFits(z, now);
    Times(s.time, s.date, s.cs)
  }

  lemma StampFits(z: Zone, now: Timespec)
    requires 0 <= now.nsec < 1_000_000_000
    ensures var s := Unix2Fat(z, now); s.time < 0x1_0000 && s.date < 0x1_0000 && s.cs < 200
  {
    hide TimeToTm;
    CsArith(now);
  }

  /** Where the fields of a new entry stand. */
  lemma EntryFields(name: seq<byte>, isDir: bool, lcase: byte, t: Times, cluster: nat)
    requires |name| == MSDOS_NAME && cluster < 0x1_0000_0000
    ensures var s := ShortEntry(name, isDir, lcase, t, cluster);
      && s[11] == (if isDir then 0x10 else 0x20) && s[12] == lcase && s[13] == t.cs
      && Le16(s[14], s[15]) == Le16(s[22], s[23]) == t.time
      && Le16(s[16], s[17]) == Le16(s[18], s[19]) == Le16(s[24], s[25]) == t.date
      && Le32(s[28], s[29], s[30], s[31]) == 0
  {
    var s := ShortEntry(name, isDir, lcase, t, cluster);
    assert s[14] == s[22] == Low(t.time) && s[15] == s[23] == High(t.time);
    assert s[16] == s[18] == s[24] == Low(t.date) && s[17] == s[19] == s[25] == High(t.date);
  }

  /** An entry with these fields; a start cluster or size has its low half first. */
  function Fields(
    name: seq<byte>, attr: byte, lcase: byte, change: Stamp, access: u16, modified: Stamp, start: nat, size: nat): Slot
    requires |name| == MSDOS_NAME && start < 0x1_0000_0000 && size < 0x1_0000_0000
    requires change.time < 0x1_0000 && change.date < 0x1_0000 && change.cs < 256
    requires modified.time < 0x1_0000 && modified.date < 0x1_0000
  {
    name
    + [attr, lcase, change.cs, Low(change.time), High(change.time), Low(change.date), High(change.date),
       Low(access), High(access), Low(start / 0x1_0000), High(start / 0x1_0000),
       Low(modified.time), High(modified.time), Low(modified.date), High(modified.date),
       Low(start % 0x1_0000), High(start % 0x1_0000),
       Low(size % 0x1_0000), High(size % 0x1_0000), Low(size / 0x1_0000), High(size / 0x1_0000)]
  }

  lemma Half(n: u16, lo: byte, hi: byte)
    requires lo == Low(n) && hi == High(n)
    ensures Le16(lo, hi) == n
  {
  }

  lemma FieldsBack(
    name: seq<byte>, attr: byte, lcase: byte, change: Stamp, access: u16, modified: Stamp, start: nat, size: nat)
    requires |name| == MSDOS_NAME && start < 0x1_0000_0000 && size < 0x1_0000_0000
    requires change.time < 0x1_0000 && change.date < 0x1_0000 && change.cs < 256
    requires modified.time < 0x1_0000 && modified.date < 0x1_0000
    ensures var r := Fields(name, attr, lcase, change, access, modified, start, size);
      && ShortName(r) == name && r[11] == attr && r[12] == lcase && r[13] == change.cs
      && Le16(r[14], r[15]) == change.time && Le16(r[16], r[17]) == change.date && Le16(r[18], r[19]) == access
      && Le16(r[22], r[23]) == modified.time && Le16(r[24], r[25]) == modified.date
      && Le16(r[20], r[21]) == start / 0x1_0000 && Le16(r[26], r[27]) == start % 0x1_0000
      && Le16(r[28], r[29]) == size % 0x1_0000 && Le16(r[30], r[31]) == size / 0x1_0000
  {
    hide Low, High, Le16;
    var r := Fields(name, attr, lcase, change, access, modified, start, size);
    Half(change.time, r[14], r[15]);
    Half(change.date, r[16], r[17]);
    Half(access, r[18], r[19]);
    Half(start / 0x1_0000, r[20], r[21]);
    Half(modified.time, r[22], r[23]);
    Half(modified.date, r[24], r[25]);
    Half(start % 0x1_0000, r[26], r[27]);
    Half(size % 0x1_0000, r[28], r[29]);
    Half(size / 0x1_0000, r[30], r[31]);
  }

  /** What an inode has that can be written to an entry. */
  ghost predicate Writable(f: Filled) {
    && f.start < 0x1_0000_0000 && f.size < 0x1_0000_0000 && 0 <= f.mtime.nsec < 1_000_000_000
    && 0 <= f.ctime.nsec < 1_000_000_000 && 0 <= f.atime.nsec < 1_000_000_000
  }

  /** What is written back of an inode on a VFAT mount (`__fat_write_inode`): its size unless it is a
      directory, its attributes, its first cluster and its times; name and case flags stay. */
  function WriteInode(z: Zone, s: Slot, attr: byte, f: Filled): Slot
    requires Writable(f)
  {
    StampFits(z, f.mtime);
    StampFits(z, f.ctime);
    StampFits(z, f.atime);
    Fields(ShortName(s), attr, s[12], Unix2Fat(z, f.ctime), Unix2Fat(z, f.atime).date, Unix2Fat(z, f.mtime),
           f.start, if f.isDir then 0 else f.size)
  }

  /** Local midnight of the day of `sec`. */
  function Midnight(z: Zone, sec: int): int { sec - Local(z, sec) % SECS_PER_DAY }

  /** A date without a time of day stands for local midnight. */
  lemma DateOnly(z: Zone, now: Timespec)
    requires 0 <= now.nsec < 1_000_000_000 && Representable(z, now)
    ensures Unix2Fat(z, now).date < 0x1_0000
    ensures Fat2Unix(z, Stamp(0, Unix2Fat(z, now).date, 0)) == Timespec(Midnight(z, now.sec), 0)
  {
    hide TimeToTm, Local, ToUtc, ToLocal, DayNumber, Fat2Unix;
    OffsetsAgree(z, now.sec);
    var local := Local(z, now.sec);
    TmRange(local);
    var tm := TimeToTm(local);
    var day := tm.(hour := 0, min := 0, sec := 0);
    assert Pack(day, 0) == Stamp(0, Unix2Fat(z, now).date, 0);
    PackedSeconds(z, day, 0);
    DaySplit(local / SECS_PER_DAY, local % SECS_PER_DAY);
  }

  /** An entry without dates, as an MS-DOS mount leaves those of change and access: local midnight of
      1.1.1980. */
  lemma NoDates(z: Zone, fat32: bool, s: Slot)
    requires forall i :: 13 <= i < 20 ==> s[i] == 0
    ensures var f := FillInode(z, fat32, s);
      && Local(z, f.ctime.sec) == Local(z, f.atime.sec) == DayNumber(1980, 1, 1) * 86400
      && f.ctime.nsec == f.atime.nsec == 0
  {
    hide Fat2Unix, Local, DayNumber, GetStart, Le32;
    assert s[13] == s[14] == s[15] == s[16] == s[17] == s[18] == s[19] == 0;
    NoStamp(z);
  }

  lemma NoStamp(z: Zone)
    ensures Local(z, Fat2Unix(z, Stamp(0, 0, 0)).sec) == DayNumber(1980, 1, 1) * 86400
    ensures Fat2Unix(z, Stamp(0, 0, 0)).nsec == 0
  {
    hide Fat2Unix, Local, DayNumber;
    AnyStampInstant(z, Stamp(0, 0, 0));
  }

  /** And so for any fields: an inode has the times its entry stands for, and is a directory exactly if the
      entry has that attribute and is in use. */
  lemma FilledTimes(z: Zone, fat32: bool, s: Slot)
    ensures var f := FillInode(z, fat32, s);
      && (f.isDir <==> s[11] / 16 % 2 == 1 && s[0] !in {0, 0xE5})
      && Local(z, f.mtime.sec) == DayOf(Le16(s[24], s[25])) * 86400 + Clock(Le16(s[22], s[23]))
      && Local(z, f.ctime.sec) == DayOf(Le16(s[16], s[17])) * 86400 + Clock(Le16(s[14], s[15])) + s[13] / 100
      && Local(z, f.atime.sec) == DayOf(Le16(s[18], s[19])) * 86400
  {
    hide Fat2Unix, Local, DayOf;
    AnyStampInstant(z, Stamp(Le16(s[22], s[23]), Le16(s[24], s[25]), 0));
    AnyStampInstant(z, Stamp(Le16(s[14], s[15]), Le16(s[16], s[17]), s[13]));
    AnyStampInstant(z, Stamp(0, Le16(s[18], s[19]), 0));
  }

  /** What an entry keeps of an inode: times as far as a stamp has them, no size of a directory. */
  function Rounded(z: Zone, f: Filled): Filled {
    Filled(
      f.isDir, f.start, if f.isDir then 0 else f.size, Timespec(f.mtime.sec - f.mtime.sec % 2, 0), RoundDown(f.ctime),
      Timespec(Midnight(z, f.atime.sec), 0))
  }

  /** An inode filled from the entry a create wrote: the kind, the cluster and the size asked for,
      the time of change to 10 ms, the time of modification to two seconds and the day of access,
      as long as the local year is one a stamp can hold. */
  lemma CreatedFills(
    g: Layout, z: Zone, now: Timespec, name: seq<byte>, isDir: bool, lcase: byte, cluster: nat)
    requires g.Valid() && |name| == MSDOS_NAME && cluster < g.maxCluster && name[0] != 0 && name[0] != DELETED_FLAG
    requires 0 <= now.nsec < 1_000_000_000 && Representable(z, now)
    ensures cluster < 0x1_0000_0000
    ensures FilledAs(
      z, g.ft == Fat32, ShortEntry(name, isDir, lcase, StampTimes(z, now), cluster),
      Rounded(z, Filled(isDir, cluster, 0, now, now, now)))
  {
    hide Unix2Fat, Fat2Unix, ShortEntry, GetStart, Representable, Midnight, RoundDown, Layout.Valid;
    VolumeDirectory.StartComesBack(g, name, isDir, lcase, StampTimes(z, now), cluster);
    EntryFields(name, isDir, lcase, StampTimes(z, now), cluster);
    StampFits(z, now);
    InRangeRoundTrip(z, now);
    WithoutCentiseconds(z, now);
    DateOnly(z, now);
    var s := ShortEntry(name, isDir, lcase, StampTimes(z, now), cluster);
    assert ShortName(s) == name && s[0] == name[0];
  }

  /** An inode written back to its entry and filled from it again, as long as its local years are those a
      stamp can hold. */
  lemma WrittenBack(g: Layout, z: Zone, s: Slot, attr: byte, f: Filled)
    requires g.Valid() && f.start < g.maxCluster && f.start < 0x1_0000_0000 && Writable(f) && !IsFree(s)
    requires f.isDir <==> attr / 16 % 2 == 1
    requires Representable(z, f.mtime) && Representable(z, f.ctime) && Representable(z, f.atime)
    ensures FilledAs(z, g.ft == Fat32, WriteInode(z, s, attr, f), Rounded(z, f))
    ensures ShortName(WriteInode(z, s, attr, f)) == ShortName(s) && WriteInode(z, s, attr, f)[12] == s[12]
  {
    hide Unix2Fat, Fat2Unix, Representable, Midnight, RoundDown, Fields, Le16;
    var size := if f.isDir then 0 else f.size;
    StampFits(z, f.mtime);
    StampFits(z, f.ctime);
    StampFits(z, f.atime);
    FieldsBack(ShortName(s), attr, s[12], Unix2Fat(z, f.ctime), Unix2Fat(z, f.atime).date, Unix2Fat(z, f.mtime),
               f.start, size);
    StartFits(g, f.start);
    InRangeRoundTrip(z, f.ctime);
    WithoutCentiseconds(z, f.mtime);
    DateOnly(z, f.atime);
    var r := WriteInode(z, s, attr, f);
    assert r[0] == ShortName(r)[0] == s[0];
    WholeNumber(r[28], r[29], r[30], r[31], size);
  }

  lemma WholeNumber(b0: byte, b1: byte, b2: byte, b3: byte, n: nat)
    requires Le16(b0, b1) == n % 0x1_0000 && Le16(b2, b3) == n / 0x1_0000
    ensures Le32(b0, b1, b2, b3) == n
  {
  }

  /** On a volume in order 16 bits hold the number of a cluster where the table has fewer than 32. */
  lemma StartFits(g: Layout, start: nat)
    requires g.Valid() && start < g.maxCluster
    ensures start < 0x1_0000_0000 && (g.ft != Fat32 ==> start / 0x1_0000 == 0 && start % 0x1_0000 == start)
  {
  }

  /** What has been written once is not changed by being written again. */
  lemma RoundedStays(z: Zone, f: Filled)
    requires Writable(f)
    ensures Rounded(z, Rounded(z, f)) == Rounded(z, f)
  {
    hide ToUtc, ToLocal;
    var a := f.atime.sec;
    WholeDays(Local(z, a));
    LocalBack(z, a, Local(z, a) % SECS_PER_DAY);
  }

  lemma WholeDays(sec: int)
    ensures (sec - sec % SECS_PER_DAY) % SECS_PER_DAY == 0
  {
  }

  lemma LocalBack(z: Zone, sec: int, less: int)
    ensures Local(z, sec - less) == Local(z, sec) - less
  {
  }
}
