/** Creating, finding and removing names in a VFAT directory (namei_vfat.c): the directory as a
    set of records, kept well formed by every operation. */
module VfatDirectory {
  import opened EntryCodec
  import opened DirSlots
  import opened DirRecords
  import opened FatDirectory
  import NameText
  import ShortNames

  const ATTR_DIR: byte := 0x10
  const ATTR_ARCH: byte := 0x20
  const CASE_LOWER_BASE := 8
  const CASE_LOWER_EXT := 16

  // ----- the short entry ----------------------------------------------------------------

  /** The times of a new entry, as `fat_time_unix2fat` gives them. */
  datatype Times = Times(time: u16, date: u16, cs: byte)

  /** The entry of the 8.3 name, with `fat_set_start`. */
  function ShortEntry(name: seq<byte>, isDir: bool, lcase: byte, t: Times, cluster: nat): (s: Slot)
    requires |name| == MSDOS_NAME && cluster < 0x1_0000_0000
    ensures ShortName(s) == name
  {
    name
    + [if isDir then ATTR_DIR else ATTR_ARCH, lcase, t.cs, Low(t.time), High(t.time), Low(t.date), High(t.date),
       Low(t.date), High(t.date), Low(cluster / 0x1_0000), High(cluster / 0x1_0000),
       Low(t.time), High(t.time), Low(t.date), High(t.date), Low(cluster % 0x1_0000), High(cluster % 0x1_0000),
       0, 0, 0, 0]
  }

  /** `fat_get_start`. */
  function GetStart(fat32: bool, s: Slot): nat {
    Le16(s[26], s[27]) + (if fat32 then 0x1_0000 * Le16(s[20], s[21]) else 0)
  }

  /** The cluster number comes back, on FAT12 and FAT16 exactly when it fits 16 bits. */
  lemma StartRoundTrip(fat32: bool, name: seq<byte>, isDir: bool, lcase: byte, t: Times, cluster: nat)
    requires |name| == MSDOS_NAME && cluster < 0x1_0000_0000
    ensures GetStart(fat32, ShortEntry(name, isDir, lcase, t, cluster)) == cluster <==> fat32 || cluster < 0x1_0000
  {
    var s := ShortEntry(name, isDir, lcase, t, cluster);
    var lo, hi := cluster % 0x1_0000, cluster / 0x1_0000;
    assert s[26] == Low(lo) && s[27] == High(lo) && s[20] == Low(hi) && s[21] == High(hi);
    assert Le16(s[26], s[27]) == lo && Le16(s[20], s[21]) == hi;
  }

  lemma ShortEntryLive(name: seq<byte>, isDir: bool, lcase: byte, t: Times, cluster: nat)
    requires ShortNames.Storable(name) && cluster < 0x1_0000_0000
    ensures LiveShort(ShortEntry(name, isDir, lcase, t, cluster))
    ensures !IsLong(ShortEntry(name, isDir, lcase, t, cluster))
  {
    var s := ShortEntry(name, isDir, lcase, t, cluster);
    assert s[0] == name[0] && s[11] == if isDir then ATTR_DIR else ATTR_ARCH;
  }

  // ----- well-formed directories -----------------------------------------------------------

  /** Long names are whole, short names differ, and every record starts early enough that there
      are fewer than 65536 of them. */
  ghost predicate Healthy(es: seq<Slot>) {
    Tidy(es, 0) && ShortDistinct(es) && EarlyStarts(Recs(es, 0))
  }

  ghost predicate EarlyStarts(rs: set<Rec>) {
    forall r :: r in rs ==> r.off < FAT_MAX_DIR_ENTRIES - 1
  }

  function NamesFrom(es: seq<Slot>, p: nat): set<seq<byte>> {
    set i | p <= i < |es| && LiveShort(es[i]) :: ShortName(es[i])
  }

  /** The names of one item are at most the names of its records. */
  lemma NamesOfItem(es: seq<Slot>, p: nat)
    requires p < |es| && ItemOk(es, p)
    ensures ItemRecs(es, p) == {} ==> NamesFrom(es, p) <= NamesFrom(es, p + ItemLen(es, p))
    ensures forall r :: (r in ItemRecs(es, p)
      ==> NamesFrom(es, p) <= NamesFrom(es, p + ItemLen(es, p)) + {ShortName(r.short)})
  {
    var n := ItemLen(es, p);
    forall i | p <= i < p + n && i < |es| && LiveShort(es[i]) ensures i == p + n - 1 && !Skipped(es[p]) {
      if !Skipped(es[p]) && IsLong(es[p]) && i < p + n - 1 {
        InsideLong(es, p, n - 1, i - p);
      }
    }
  }

  lemma {:induction false} RecsCount(es: seq<Slot>, p: nat)
    requires Tidy(es, p) && EarlyStarts(Recs(es, p))
    ensures |NamesFrom(es, p)| <= |Recs(es, p)|
    ensures |Recs(es, p)| <= if p < FAT_MAX_DIR_ENTRIES - 1 then FAT_MAX_DIR_ENTRIES - 1 - p else 0
    decreases |es| - p
  {
    hide ItemLen, Skipped, IsLong, LiveShort;
    if p < |es| {
      TidyItem(es, p);
      var next := p + ItemLen(es, p);
      RecsCount(es, next);
      NamesOfItem(es, p);
      if ItemRecs(es, p) == {} {
        ShortNames.SubsetCount(NamesFrom(es, p), NamesFrom(es, next));
      } else {
        var r :| r in ItemRecs(es, p);
        assert ItemRecs(es, p) == {r} && r.off == p && r in Recs(es, p);
        NotAfter(es, next, r);
        ShortNames.SubsetCount(NamesFrom(es, p), NamesFrom(es, next) + {ShortName(r.short)});
      }
    }
  }

  /** In a well-formed directory there are at most 65535 live names. */
  lemma FewNames(es: seq<Slot>)
    requires Healthy(es)
    ensures |ShortNames.Names(es)| < ShortNames.TAILS
  {
    RecsCount(es, 0);
    assert ShortNames.Names(es) == NamesFrom(es, 0);
  }

  /** Free slots changing, or being added, leave a directory well formed and its records alone. */
  lemma HealthyFreeDifferences(es: seq<Slot>, es': seq<Slot>)
    requires Healthy(es) && OnlyFreeDiffer(es, es', 0)
    ensures Healthy(es') && Recs(es', 0) == Recs(es, 0)
  {
    FreeDifferences(es, es', 0);
    DistinctAfterLess(es, es');
  }

  /** Of the slots added with a record only the last is a live short entry. */
  lemma AddedLive(es: seq<Slot>, es': seq<Slot>, off: nat, ss: seq<Slot>, grown: nat, r: Rec, i: nat)
    requires Added(es, es', off, ss, grown) && IsRec(es', r) && r.off == off && r.pieces + 1 == |ss|
    requires i < |es'| && i != off + r.pieces && LiveShort(es'[i])
    ensures i < |es| && es[i] == es'[i]
  {
    hide NoRun, Text, ShortName;
    if off <= i < off + r.pieces {
      InsideLong(es', off, r.pieces, i - off);
    } else {
      assert es'[i] == (es + Zeros(grown))[i];
    }
  }

  lemma DistinctAfterRecord(es: seq<Slot>, es': seq<Slot>, off: nat, ss: seq<Slot>, grown: nat, r: Rec)
    requires ShortDistinct(es) && Added(es, es', off, ss, grown)
    requires IsRec(es', r) && r.off == off && r.pieces + 1 == |ss|
    requires NameFree(es, ShortName(r.short))
    ensures ShortDistinct(es')
  {
    hide StrnEq, NoRun, Text, AllFree, Written;
    forall i | 0 <= i < |es'| && i != off + r.pieces && LiveShort(es'[i]) ensures i < |es| && es[i] == es'[i] {
      AddedLive(es, es', off, ss, grown, r, i);
    }
    DistinctAfterAdd(es, es', off + r.pieces);
  }

  /** A record of a free name, added where there was room. */
  lemma HealthyAfterAdd(es: seq<Slot>, es': seq<Slot>, off: nat, ss: seq<Slot>, grown: nat, r: Rec)
    requires Healthy(es) && Added(es, es', off, ss, grown) && IsRec(es', r) && r.off == off && r.pieces + 1 == |ss|
    requires NameFree(es, ShortName(r.short)) && off < FAT_MAX_DIR_ENTRIES - 1
    ensures Healthy(es') && Recs(es', 0) == Recs(es, 0) + {r} && r !in Recs(es, 0)
  {
    var big := es + Zeros(grown);
    FreeDifferences(es, big, 0);
    AddRecord(big, es', 0, r);
    DistinctAfterRecord(es, es', off, ss, grown, r);
    NotThere(big, r);
  }

  lemma NotThere(es: seq<Slot>, r: Rec)
    requires Tidy(es, 0) && AllFree(es, r.off, r.pieces + 1)
    ensures r !in Recs(es, 0)
  {
    if r in Recs(es, 0) {
      RecsAfter(es, 0, r);
    }
  }

  /** The removal of a record. */
  lemma HealthyAfterRemove(es: seq<Slot>, es': seq<Slot>, r: Rec, cut: nat)
    requires Healthy(es) && r in Recs(es, 0) && Removed(es, es', r.off, cut, r.off + r.pieces + 1)
    ensures Healthy(es') && Recs(es', 0) == Recs(es, 0) - {r}
  {
    RemoveRecord(es, es', 0, r);
    DistinctAfterLess(es, es');
  }

  const DOT: seq<byte> := [0x2E, 0x20, 0x20, 0x20, 0x20, 0x20, 0x20, 0x20, 0x20, 0x20, 0x20]
  const DOTDOT: seq<byte> := [0x2E, 0x2E, 0x20, 0x20, 0x20, 0x20, 0x20, 0x20, 0x20, 0x20, 0x20]

  /** A dot or two, and blanks. */
  lemma DotNames(i: nat)
    requires i < 11
    ensures DOT[i] as char == if i == 0 then '.' else ' '
    ensures DOTDOT[i] as char == if i <= 1 then '.' else ' '
  {
  }

  /** `fat_alloc_new_dir`: a new directory is well formed, with the records `.` and `..`. */
  method NewDirectory(perBlock: nat, secPerClus: nat, fat32: bool, cluster: nat, parent: nat, t: Times)
      returns (dir: Directory)
    requires 16 <= perBlock && 1 <= secPerClus && cluster < 0x1_0000_0000 && parent < 0x1_0000_0000
    ensures dir.Valid() && dir.perBlock == perBlock && Healthy(dir.entries)
    ensures Recs(dir.entries, 0)
         == {Rec(0, 0, ShortEntry(DOT, true, 0, t, cluster), []), Rec(1, 0, ShortEntry(DOTDOT, true, 0, t, parent), [])}
  {
    var dot, dotdot := ShortEntry(DOT, true, 0, t, cluster), ShortEntry(DOTDOT, true, 0, t, parent);
    dir := new Directory.NewDir(perBlock, secPerClus, fat32, cluster, dot, dotdot);
    DotsLive(t, cluster, parent);
    NewDirHealthy(dir.entries, dot, dotdot);
  }

  lemma DotsLive(t: Times, cluster: nat, parent: nat)
    requires cluster < 0x1_0000_0000 && parent < 0x1_0000_0000
    ensures var dot := ShortEntry(DOT, true, 0, t, cluster); LiveShort(dot) && !IsLong(dot) && ShortName(dot) == DOT
    ensures var dotdot := ShortEntry(DOTDOT, true, 0, t, parent);
      LiveShort(dotdot) && !IsLong(dotdot) && ShortName(dotdot) == DOTDOT
    ensures !StrnEq(DOT, DOTDOT)
  {
    ShortEntryLive(DOT, true, 0, t, cluster);
    ShortEntryLive(DOTDOT, true, 0, t, parent);
    assert DOT[1] != DOTDOT[1] && 0 !in DOT[..1];
  }

  lemma NewDirHealthy(es: seq<Slot>, dot: Slot, dotdot: Slot)
    requires |es| >= 2 && es == [dot, dotdot] + Zeros(|es| - 2)
    requires LiveShort(dot) && !IsLong(dot) && LiveShort(dotdot) && !IsLong(dotdot)
    requires !StrnEq(ShortName(dot), ShortName(dotdot))
    ensures Healthy(es) && Recs(es, 0) == {Rec(0, 0, dot, []), Rec(1, 0, dotdot, [])}
  {
    assert es[0] == dot && es[1] == dotdot;
    forall i | 2 <= i < |es| ensures IsFree(es[i]) {
    }
    FreeTail(es, 2);
    assert Recs(es, 1) == {Rec(1, 0, dotdot, [])} + Recs(es, 2);
    assert ShortDistinct(es);
  }

  // ----- names ---------------------------------------------------------------------------------

  /** `vfat_bad_char`. */
  predicate BadChar(w: u16) {
    w < 0x20 || w == 0x2A || w == 0x3F || w == 0x3C || w == 0x3E || w == 0x7C || w == 0x22 || w == 0x3A
    || w == 0x2F || w == 0x5C
  }

  /** `vfat_is_used_badchars`: no forbidden character, and no space at the end. */
  predicate Acceptable(u: seq<u16>) {
    1 <= |u| && (forall i :: 0 <= i < |u| ==> !BadChar(u[i])) && u[|u| - 1] != 0x20
  }

  method IsUsedBadChars(u: seq<u16>) returns (bad: bool)
    requires 1 <= |u|
    ensures bad <==> !Acceptable(u)
  {
    var i := 0;
    while i < |u|
      invariant 0 <= i <= |u| && forall j :: 0 <= j < i ==> !BadChar(u[j])
    {
      if BadChar(u[i]) {
        return true;
      }
      i := i + 1;
    }
    bad := u[i - 1] == 0x20;
  }

  /** The first `len` bytes are the name without the dots at its end. */
  predicate Stripped(name: seq<byte>, len: nat) {
    && len <= |name| && (len > 0 ==> name[len - 1] != 0x2E)
    && forall i :: len <= i < |name| ==> name[i] == 0x2E
  }

  /** `__vfat_striptail_len`. */
  method StripTail(name: seq<byte>) returns (len: nat)
    ensures Stripped(name, len)
  {
    len := |name|;
    while len > 0 && name[len - 1] == 0x2E
      invariant len <= |name| && forall i :: len <= i < |name| ==> name[i] == 0x2E
    {
      len := len - 1;
    }
  }

  /** The loop of `vfat_build_slots` over the long slots, and the short entry behind them. */
  method LayOut(padded: seq<u16>, sum: byte, short: Slot) returns (slots: seq<Slot>)
    requires 1 <= |padded| <= 260 && |padded| % 13 == 0
    ensures slots == LongSlots(padded, sum) + [short]
  {
    var n := |padded| / 13;
    var i := n;
    slots := [];
    while i > 0
      invariant 0 <= i <= n && |slots| == n - i
      invariant forall j :: 0 <= j < n - i ==> slots[j] == LongSlots(padded, sum)[j]
    {
      var id := if i == n then i + 0x40 else i;
      slots := slots + [LongSlot(id, sum, Piece(padded, i - 1))];
      i := i - 1;
    }
    assert slots == LongSlots(padded, sum);
    slots := slots + [short];
  }

  /** What `vfat_build_slots` comes to: -EINVAL, -ENAMETOOLONG, -EEXIST, or slots. */
  datatype BuildStatus = Built | BuildInvalid | BuildTooLong | BuildExists

  /** Everything a create needs to know besides the directory and the name. */
  datatype Request = Request(
    cp: NameText.CodePage, escape: bool, nls: ShortNames.Nls, opts: ShortNames.Options, jiffies: int,
    isDir: bool, cluster: nat, times: Times)

  ghost predicate RequestOk(q: Request) {
    && NameText.CodePageOk(q.cp) && ShortNames.NlsOk(q.nls) && (q.opts.win95 || q.opts.winnt)
    && q.cluster < 0x1_0000_0000
  }

  /** The slots of a name: its pieces, if any, and the short entry, whose name is new. */
  ghost predicate SlotsFor(es: seq<Slot>, q: Request, name: seq<byte>, u: seq<u16>, slots: seq<Slot>) {
    && NameText.Xlate(q.cp, q.escape, name, 0) == NameText.Units(u) && Acceptable(u) && |u| <= FAT_LFN_LEN
    && EntryAndPieces(es, q, u, slots)
    && slots != [] && AliasIn(es, q, u, |slots|, ShortName(slots[|slots| - 1]))
  }

  ghost predicate EntryAndPieces(es: seq<Slot>, q: Request, u: seq<u16>, slots: seq<Slot>) {
    && 1 <= |slots| <= MSDOS_SLOTS && |u| <= FAT_LFN_LEN
    && var short := slots[|slots| - 1];
      && ShortNames.Storable(ShortName(short)) && NameFree(es, ShortName(short))
      && LiveShort(short) && !IsLong(short) && ShortFor(q, u, |slots|, short)
      && (|slots| > 1 ==> slots == LongSlots(Padded(u), Checksum(ShortName(short))) + [short])
  }

  /** The name of the short entry is the alias made for the name in this directory. */
  ghost predicate AliasIn(es: seq<Slot>, q: Request, u: seq<u16>, n: nat, name: seq<byte>) {
    exists a: ShortNames.Alias ::
      && ShortNames.AliasOk(es, q.nls, q.opts, u, q.jiffies, a)
      && a.Alias? && a.name == name && (a.alone <==> n == 1)
  }

  /** Bit 3 of the flags is for the base, bit 4 for the extension. */
  lemma CaseBits(q: Request, base: seq<u16>, ext: seq<u16>)
    ensures var f := CaseFlags(q, base, ext);
      && (f / 8 % 2 == 1 <==> ShortNames.LowerPart(q.nls, q.opts, base))
      && (f / 16 % 2 == 1 <==> ShortNames.LowerPart(q.nls, q.opts, ext)) && f % 8 == 0 && f < 32
  {
  }

  /** The case flags of an entry that stands alone. */
  function CaseFlags(q: Request, base: seq<u16>, ext: seq<u16>): byte {
    (if ShortNames.LowerPart(q.nls, q.opts, base) then CASE_LOWER_BASE else 0)
    + (if ShortNames.LowerPart(q.nls, q.opts, ext) then CASE_LOWER_EXT else 0)
  }

  /** One slot is enough exactly if the name fits 8.3 but for case flags, and then the entry has its
      bytes and the flags; the entry carries the kind, the times and the first cluster asked for. */
  ghost predicate ShortBy(q: Request, u: seq<u16>, sz: nat, ext: nat, n: nat, short: Slot) {
    && sz <= |u| && ext <= |u| && q.cluster < 0x1_0000_0000
    && (n == 1 <==> ShortNames.StandsAlone(q.nls, q.opts, u[..sz], u[ext..]))
    && (n == 1 ==> ShortNames.ShortForm(q.nls, u, sz, ext, ShortName(short)))
    && short == ShortEntry(
      ShortName(short), q.isDir, if n == 1 then CaseFlags(q, u[..sz], u[ext..]) else 0, q.times, q.cluster)
  }

  ghost predicate ShortFor(q: Request, u: seq<u16>, n: nat, short: Slot) {
    exists sz: nat, ext: nat :: ShortNames.Divides(u, sz, ext) && ShortBy(q, u, sz, ext, n, short)
  }

  /** Why a name is refused: it has no translation, a forbidden character or no base; it is too long;
      or it needs no long slots and its 8.3 form is there already. */
  ghost predicate Refused(es: seq<Slot>, q: Request, name: seq<byte>, why: BuildStatus) {
    match NameText.Xlate(q.cp, q.escape, name, 0)
    case BadText => why == BuildInvalid
    case TooLong => why == BuildTooLong
    case Units(u) =>
      if !Acceptable(u) || why == BuildInvalid
      then why == BuildInvalid && (!Acceptable(u) || ShortNames.NoBase(q.nls, u))
      else why == BuildExists && TakenShort(es, q, u)
  }

  ghost predicate TakenShort(es: seq<Slot>, q: Request, u: seq<u16>) {
    exists n :: ShortNames.FitsShort(q.nls, u, n) && |n| == MSDOS_NAME && !NameFree(es, n)
  }

  /** `vfat_build_slots`. */
  method BuildSlots(dir: Directory, q: Request, name: seq<byte>)
      returns (status: BuildStatus, slots: seq<Slot>, ghost u: seq<u16>)
    requires dir.Valid() && Healthy(dir.entries) && RequestOk(q) && name != []
    ensures status == Built ==> SlotsFor(dir.entries, q, name, u, slots)
    ensures status != Built ==> Refused(dir.entries, q, name, status)
  {
    u, slots := [], [];
    var text, padded := NameText.XlateToUni(q.cp, q.escape, name);
    if text.BadText? {
      return BuildInvalid, [], u;
    }
    if text.TooLong? {
      return BuildTooLong, [], u;
    }
    u := text.units;
    NotEmpty(q.cp, q.escape, name);
    var bad := IsUsedBadChars(text.units);
    if bad {
      return BuildInvalid, [], u;
    }
    var alias := MakeAlias(dir, q, text.units);
    if alias.BadName? {
      return BuildInvalid, [], u;
    }
    if alias.NameTaken? {
      return BuildExists, [], u;
    }
    slots := Assemble(q, alias, padded, dir.entries, u);
    status := Built;
  }

  method MakeAlias(dir: Directory, q: Request, u: seq<u16>) returns (alias: ShortNames.Alias)
    requires dir.Valid() && Healthy(dir.entries) && RequestOk(q) && Acceptable(u)
    ensures ShortNames.AliasOk(dir.entries, q.nls, q.opts, u, q.jiffies, alias)
  {
    FewNames(dir.entries);
    alias := ShortNames.CreateShortname(dir, q.nls, u, q.opts, q.jiffies);
  }

  /** The short entry, alone or behind the pieces of the long name. */
  method Assemble(q: Request, alias: ShortNames.Alias, padded: seq<u16>, ghost es: seq<Slot>, ghost u: seq<u16>)
      returns (slots: seq<Slot>)
    requires RequestOk(q) && alias.Alias? && 1 <= |u| <= FAT_LFN_LEN && padded == Padded(u)
    requires ShortNames.AliasOk(es, q.nls, q.opts, u, q.jiffies, alias)
    ensures EntryAndPieces(es, q, u, slots)
    ensures slots != [] && AliasIn(es, q, u, |slots|, ShortName(slots[|slots| - 1]))
  {
    hide ShortNames.AliasOk, ShortFor, LongSlots, Checksum, ShortEntry;
    hide NameFree, LiveShort, IsLong, Padded, ShortNames.Storable;
    var lcase: byte :=
      (if alias.lowerBase then CASE_LOWER_BASE else 0) + (if alias.lowerExt then CASE_LOWER_EXT else 0);
    AliasEntry(es, q, u, alias, lcase, if alias.alone then 1 else |padded| / 13 + 1);
    var short := ShortEntry(alias.name, q.isDir, lcase, q.times, q.cluster);
    ShortEntryLive(alias.name, q.isDir, lcase, q.times, q.cluster);
    if alias.alone {
      return [short];
    }
    slots := LayOut(padded, Checksum(alias.name), short);
  }

  /** The entry made from an alias. */
  lemma AliasEntry(es: seq<Slot>, q: Request, u: seq<u16>, alias: ShortNames.Alias, lcase: byte, n: nat)
    requires RequestOk(q) && alias.Alias? && ShortNames.AliasOk(es, q.nls, q.opts, u, q.jiffies, alias)
    requires lcase == (if alias.lowerBase then CASE_LOWER_BASE else 0) + (if alias.lowerExt then CASE_LOWER_EXT else 0)
    requires n == 1 <==> alias.alone
    ensures ShortNames.Storable(alias.name) && NameFree(es, alias.name)
    ensures ShortFor(q, u, n, ShortEntry(alias.name, q.isDir, lcase, q.times, q.cluster))
  {
    hide ShortNames.StandsAlone, ShortNames.LowerPart, ShortNames.ShortForm, ShortNames.MadeFrom, ShortNames.Divides;
    var sz: nat, ext: nat :|
      ShortNames.Divides(u, sz, ext) && ShortNames.AliasFor(es, q.nls, q.opts, u, q.jiffies, sz, ext, alias);
    var short := ShortEntry(alias.name, q.isDir, lcase, q.times, q.cluster);
    assert ShortName(short) == alias.name;
    assert ShortBy(q, u, sz, ext, n, short);
  }

  lemma NotEmpty(cp: NameText.CodePage, escape: bool, name: seq<byte>)
    requires name != [] && NameText.Xlate(cp, escape, name, 0).Units?
    ensures NameText.Xlate(cp, escape, name, 0).units != []
  {
  }

  // ----- the operations ------------------------------------------------------------------------

  datatype CreateStatus = CreateOk | CreateNoName | CreateFailed(why: BuildStatus) | CreateNoRoom(how: AddStatus)

  /** The record a create adds for name `u`. */
  function NewRec(off: nat, u: seq<u16>, slots: seq<Slot>): Rec
    requires slots != []
  {
    Rec(off, |slots| - 1, slots[|slots| - 1], if |slots| == 1 then [] else u)
  }

  lemma AddedIsRec(es: seq<Slot>, es': seq<Slot>, q: Request, name: seq<byte>, u: seq<u16>,
                   slots: seq<Slot>, off: nat, grown: nat)
    requires SlotsFor(es, q, name, u, slots) && Added(es, es', off, slots, grown)
    ensures IsRec(es', NewRec(off, u, slots))
  {
    hide Text, Units, Parse, UpToZero, LongSlots, Checksum, Padded, AliasIn, ShortFor, NameFree;
    var n, short := |slots| - 1, slots[|slots| - 1];
    assert es'[off..off + |slots|] == slots;
    assert es'[off + n] == es'[off..off + |slots|][n] == short;
    if n > 0 {
      assert es'[off..off + n] == es'[off..off + |slots|][..n] == LongSlots(Padded(u), Checksum(ShortName(short)));
      assert WrittenAt(es', off, u, short);
      assert 0 !in u;
      LongNameRoundTrip(es', off, u, short);
    }
  }

  /** The slots of a long name, placed by an add wherever there was room, are parsed back as that
      name, with their number and the checksum of their alias. */
  lemma ReadBack(es: seq<Slot>, es': seq<Slot>, q: Request, name: seq<byte>, u: seq<u16>,
                 slots: seq<Slot>, off: nat, grown: nat)
    requires SlotsFor(es, q, name, u, slots) && Added(es, es', off, slots, grown) && |slots| > 1
    ensures off + |slots| <= |es'|
    ensures match Parse(es', off)
      case Named(units, nr, at) => UpToZero(units) == u && nr == |slots| - 1 && at == off + nr && es'[at] == slots[nr]
      case _ => false
  {
    AddedIsRec(es, es', q, name, u, slots, off, grown);
    ParseRecord(es', off, |slots| - 1);
  }

  /** What a create does to the records of the directory. */
  ghost predicate CreatedIn(es: seq<Slot>, es': seq<Slot>, q: Request, name: seq<byte>, u: seq<u16>,
                            slots: seq<Slot>, off: nat)
  {
    && Tidy(es, 0) && Tidy(es', 0) && SlotsFor(es, q, name, u, slots)
    && NewRec(off, u, slots) !in Recs(es, 0) && Recs(es', 0) == Recs(es, 0) + {NewRec(off, u, slots)}
  }

  /** First half of `vfat_add_entry`: the slots of the name. */
  method Prepare(dir: Directory, q: Request, qname: seq<byte>)
      returns (status: CreateStatus, len: nat, slots: seq<Slot>, ghost u: seq<u16>)
    requires dir.Valid() && Healthy(dir.entries) && RequestOk(q)
    ensures Stripped(qname, len) && (status == CreateNoName <==> len == 0) && !status.CreateNoRoom?
    ensures status == CreateOk ==> SlotsFor(dir.entries, q, qname[..len], u, slots)
    ensures status.CreateFailed? ==> Refused(dir.entries, q, qname[..len], status.why)
  {
    u, slots := [], [];
    len := StripTail(qname);
    if len == 0 {
      return CreateNoName, len, slots, u;
    }
    var built;
    built, slots, u := BuildSlots(dir, q, qname[..len]);
    status := if built == Built then CreateOk else CreateFailed(built);
  }

  /** There are slots to place, no more than a name can have, and their alias is free. */
  lemma SlotsSay(es: seq<Slot>, q: Request, name: seq<byte>, u: seq<u16>, slots: seq<Slot>, off: nat)
    requires SlotsFor(es, q, name, u, slots)
    ensures 1 <= |slots| <= MSDOS_SLOTS
    ensures var r := NewRec(off, u, slots); r.off == off && r.pieces + 1 == |slots| && NameFree(es, ShortName(r.short))
  {
  }

  /** Slots added for a name are one new record in a directory that stays well formed. */
  lemma PlacedWell(es: seq<Slot>, es': seq<Slot>, q: Request, name: seq<byte>, u: seq<u16>,
                   slots: seq<Slot>, off: nat, grown: nat)
    requires Healthy(es) && SlotsFor(es, q, name, u, slots)
    requires Added(es, es', off, slots, grown) && off < FAT_MAX_DIR_ENTRIES - 1
    ensures Healthy(es') && CreatedIn(es, es', q, name, u, slots, off)
  {
    hide Added, SlotsFor, Recs, Tidy, NewRec, IsRec, NameFree, EarlyStarts, ShortDistinct;
    SlotsSay(es, q, name, u, slots, off);
    AddedIsRec(es, es', q, name, u, slots, off, grown);
    HealthyAfterAdd(es, es', off, slots, grown, NewRec(off, u, slots));
  }

  function Placed(how: AddStatus): CreateStatus { if how == AddOk then CreateOk else CreateNoRoom(how) }

  lemma PlacedIs(how: AddStatus)
    ensures Placed(how) == if how == AddOk then CreateOk else CreateNoRoom(how)
  {
  }

  /** Second half: the slots are added; `alloc` is what comes of asking for clusters. */
  method Place(dir: Directory, slots: seq<Slot>, alloc: AddStatus,
               ghost q: Request, ghost name: seq<byte>, ghost u: seq<u16>)
      returns (status: CreateStatus, off: nat, ghost grown: nat)
    requires dir.Valid() && dir.perBlock % 2 == 0 && Healthy(dir.entries) && SlotsFor(dir.entries, q, name, u, slots)
    modifies dir`entries
    ensures dir.Valid() && Healthy(dir.entries) && dir.secPerClus * dir.perBlock > 0
    ensures status == Placed(old(dir.AddOutcome(|slots|, alloc)))
    ensures status == CreateOk ==> CreatedIn(old(dir.entries), dir.entries, q, name, u, slots, off)
    ensures status == CreateOk ==> Added(old(dir.entries), dir.entries, off, slots, grown)
    ensures status == CreateOk ==>
      grown == Needed(old(dir.entries), |slots|, dir.secPerClus * dir.perBlock) * (dir.secPerClus * dir.perBlock)
    ensures status != CreateOk ==> Recs(dir.entries, 0) == old(Recs(dir.entries, 0))
    ensures status != CreateOk ==> |dir.entries| == |old(dir.entries)|
  {
    hide *;
    ghost var was := dir.entries;
    SlotsSay(was, q, name, u, slots, 0);
    var added;
    added, off, grown := dir.AddEntries(slots, alloc);
    PlacedIs(added);
    if added != AddOk {
      HealthyFreeDifferences(was, dir.entries);
      return CreateNoRoom(added), off, grown;
    }
    PlacedWell(was, dir.entries, q, name, u, slots, off, grown);
    status := CreateOk;
  }

  /** `vfat_add_entry`: the directory stays well formed and gains exactly the record of the name;
      when it fails its records are as before. */
  method AddEntry(dir: Directory, q: Request, qname: seq<byte>, alloc: AddStatus)
      returns (status: CreateStatus, off: nat, len: nat, ghost u: seq<u16>, slots: seq<Slot>)
    requires dir.Valid() && dir.perBlock % 2 == 0 && Healthy(dir.entries) && RequestOk(q)
    modifies dir`entries
    ensures dir.Valid() && Healthy(dir.entries) && Stripped(qname, len) && (status == CreateNoName <==> len == 0)
    ensures status == CreateOk || status.CreateNoRoom? ==>
      && SlotsFor(old(dir.entries), q, qname[..len], u, slots)
      && status == Placed(old(dir.AddOutcome(|slots|, alloc)))
    ensures status == CreateOk ==> CreatedIn(old(dir.entries), dir.entries, q, qname[..len], u, slots, off)
    ensures status.CreateFailed? ==> Refused(old(dir.entries), q, qname[..len], status.why)
    ensures status != CreateOk ==> Recs(dir.entries, 0) == old(Recs(dir.entries, 0))
    ensures status != CreateOk ==> |dir.entries| == |old(dir.entries)|
  {
    off := 0;
    status, len, slots, u := Prepare(dir, q, qname);
    if status == CreateOk {
      ghost var grown;
      status, off, grown := Place(dir, slots, alloc, q, qname[..len], u);
    }
  }

  /** `vfat_find`. */
  method Find(dir: Directory, rd: Reader, qname: seq<byte>) returns (hit: Hit, c: Cursor, len: nat)
    requires dir.Valid() && Healthy(dir.entries)
    ensures Stripped(qname, len) && (len == 0 ==> hit == Miss)
    ensures len > 0 ==> hit == Search(dir.entries, 0, rd, qname[..len])
    ensures len > 0 ==> HitIn(hit, Recs(dir.entries, 0), rd, qname[..len])
    ensures hit.Hit? ==> dir.Points(c) && c.pos == hit.off + hit.slots
  {
    hit, c := Miss, Cursor(0, -1, -1);
    len := StripTail(qname);
    if len > 0 {
      hit, c := dir.SearchLong(rd, qname[..len]);
      SearchFinds(dir.entries, 0, rd, qname[..len]);
    }
  }

  /** `vfat_unlink`: find the name and remove its slots. The directory loses exactly one record
      that bears the name, or there was none and it is unchanged. */
  method Unlink(dir: Directory, rd: Reader, qname: seq<byte>) returns (found: bool, len: nat, ghost r: Rec)
    requires dir.Valid() && Healthy(dir.entries)
    modifies dir`entries
    ensures dir.Valid() && Healthy(dir.entries) && Stripped(qname, len) && (len == 0 ==> !found)
    ensures found ==> FirstOf(r, old(Recs(dir.entries, 0)), rd, qname[..len])
    ensures found ==> Recs(dir.entries, 0) == old(Recs(dir.entries, 0)) - {r}
    ensures !found ==> dir.entries == old(dir.entries)
    ensures |dir.entries| == |old(dir.entries)|
    ensures !found && len > 0 ==> forall x :: x in Recs(dir.entries, 0) ==> !RecAccepts(rd, qname[..len], x)
  {
    r := Rec(0, 0, ZeroSlot(), []);
    var hit, c;
    hit, c, len := Find(dir, rd, qname);
    match hit {
      case Miss =>
        found := false;
      case Hit(off, n) =>
        found := true;
        r :| FirstOf(r, Recs(dir.entries, 0), rd, qname[..len]) && r.off == off && r.pieces + 1 == n;
        ghost var was := dir.entries;
        dir.RemoveEntries(off, n, c);
        HealthyAfterRemove(was, dir.entries, r, if c.bh <= off then off else c.bh);
    }
  }

  /** After a create of a name that no record bore the search ends at the new record exactly if
      that one bears it. */
  lemma FoundAfterCreate(es: seq<Slot>, es': seq<Slot>, r: Rec, rd: Reader, name: seq<byte>)
    requires Tidy(es, 0) && Tidy(es', 0) && Recs(es', 0) == Recs(es, 0) + {r}
    requires forall x :: x in Recs(es, 0) ==> !RecAccepts(rd, name, x)
    ensures Search(es', 0, rd, name) == if RecAccepts(rd, name, r) then Hit(r.off, r.pieces + 1) else Miss
  {
    SearchFinds(es', 0, rd, name);
  }

  /** After an unlink the name is not found, if only the removed record bore it. */
  lemma GoneAfterUnlink(es: seq<Slot>, es': seq<Slot>, r: Rec, rd: Reader, name: seq<byte>)
    requires Tidy(es, 0) && Tidy(es', 0) && Recs(es', 0) == Recs(es, 0) - {r}
    requires forall x :: x in Recs(es, 0) && RecAccepts(rd, name, x) ==> x == r
    ensures Search(es', 0, rd, name) == Miss
  {
    SearchFinds(es', 0, rd, name);
  }

  /** Creates and unlinks of records that do not bear a name leave the answer for it as it was: the
      same record, or none. */
  lemma OthersUnmoved(es: seq<Slot>, es': seq<Slot>, r: Rec, rd: Reader, name: seq<byte>)
    requires Tidy(es, 0) && Tidy(es', 0) && !RecAccepts(rd, name, r)
    requires Recs(es', 0) == Recs(es, 0) + {r} || Recs(es', 0) == Recs(es, 0) - {r}
    ensures Search(es', 0, rd, name) == Search(es, 0, rd, name)
  {
    hide Tidy, Recs, Search, RecAccepts;
    SearchFinds(es, 0, rd, name);
    SearchFinds(es', 0, rd, name);
  }
}
