/** A name just created on a VFAT mount, by its characters: when its entry stands alone, and when a
    search for the name comes to it. */
module CreatedNames {
  import opened EntryCodec
  import opened DirSlots
  import opened DirRecords
  import opened VfatDirectory
  import opened VfatLookup
  import opened LegalNames
  import opened NameBytes
  import NameText
  import ShortNames

  // ----- what is assumed of the code pages ----------------------------------------------------

  /** Every character of ASCII is written as itself. */
  ghost predicate WritesAscii(nls: ShortNames.Nls) {
    forall c: u16 :: 1 <= c < 0x7F ==> nls.uni2char(c) == [c]
  }

  /** The byte of a colon stands for a colon and nothing else does, in either case. */
  ghost predicate ColonShown(cp: NameText.CodePage) {
    && (forall c: u16 :: c != NameText.COLON ==> NameText.COLON !in cp.uni2char(c))
    && (forall b :: cp.lower(b) == NameText.COLON ==> b == NameText.COLON)
  }

  ghost predicate ColonDisk(nls: ShortNames.Nls) {
    && (forall c: u16 :: c != NameText.COLON ==> NameText.COLON !in nls.uni2char(c))
    && (forall b :: nls.upper(b) == NameText.COLON || nls.lower(b) == NameText.COLON ==> b == NameText.COLON)
    && (forall s :: |s| > 0 && s[0] != NameText.COLON && nls.char2uni(s).Char?
          ==> nls.char2uni(s).unit != NameText.COLON)
  }

  ghost predicate CreatedOk(q: Request) {
    PagesOk(q) && WritesAscii(q.nls) && ColonShown(q.cp) && ColonDisk(q.nls)
  }

  /** The pages that have ASCII and nothing else. */
  ghost predicate AsciiRequest(q: Request) {
    && q.cp == NameText.CodePage(AsciiBytes, AsciiUnit, (b: byte) => Lower(b))
    && q.nls
      == ShortNames.Nls(AsciiBytes, AsciiUnit, (b: byte) => Upper(b), (b: byte) => Lower(b), (b: byte) => Letter(b))
    && (q.opts.win95 || q.opts.winnt) && q.cluster < 0x1_0000_0000
  }

  /** They meet all of this. */
  lemma AsciiMeets(q: Request)
    requires AsciiRequest(q)
    ensures CreatedOk(q)
  {
    AsciiPage(q);
  }

  // ----- by characters -----------------------------------------------------------------------

  predicate Small(w: u16) { 0x61 <= w <= 0x7A }

  predicate Capital(w: u16) { 0x41 <= w <= 0x5A }

  predicate HasSmall(v: seq<u16>) { exists i :: 0 <= i < |v| && Small(v[i]) }

  predicate HasCapital(v: seq<u16>) { exists i :: 0 <= i < |v| && Capital(v[i]) }

  predicate Ascii(v: seq<u16>) { forall i :: 0 <= i < |v| ==> v[i] < 0x7F }

  /** Where the first dot is; `|u|` if there is none. */
  function FirstDot(u: seq<u16>): (d: nat)
    ensures d <= |u| && DOT_UNIT !in u[..d] && (d < |u| ==> u[d] == DOT_UNIT)
    decreases |u|
  {
    if u == [] || u[0] == DOT_UNIT then 0
    else
      var d := FirstDot(u[1..]);
      assert u[..d + 1] == [u[0]] + u[1..][..d];
      d + 1
  }

  /** One to `most` characters that may stand in an 8.3 name, but for their case. */
  predicate Part83(v: seq<u16>, most: nat) {
    1 <= |v| <= most && forall i :: 0 <= i < |v| ==> v[i] < 0x7F && Legal(Upper(v[i]))
  }

  function BasePart(u: seq<u16>): seq<u16> { u[..FirstDot(u)] }

  function ExtPart(u: seq<u16>): seq<u16> { if FirstDot(u) < |u| then u[FirstDot(u) + 1..] else [] }

  /** An 8.3 name, but for case. */
  predicate Name83(u: seq<u16>) {
    Part83(BasePart(u), 8) && (FirstDot(u) < |u| ==> Part83(ExtPart(u), 3))
  }

  /** A name that needs one slot only: an 8.3 name in capitals, or with the flags of `winnt` one with
      no part that mixes capitals and small letters. */
  predicate OneSlot(opts: ShortNames.Options, u: seq<u16>) {
    && Name83(u)
    && (if opts.win95 then !HasSmall(u)
        else !(HasSmall(BasePart(u)) && HasCapital(BasePart(u))) && !(HasSmall(ExtPart(u)) && HasCapital(ExtPart(u))))
  }

  /** Is this part to be shown in small letters by its flag? */
  predicate Flagged(opts: ShortNames.Options, part: seq<u16>) { !opts.win95 && HasSmall(part) }

  /** What `to_shortname_char` notes about a character that has an alias of its own. */
  lemma CaseNoted(nls: ShortNames.Nls, w: u16)
    requires AsciiDisk(nls) && ShortNames.NlsOk(nls) && WritesAscii(nls) && w != 0
    requires !ShortNames.SkipChar(w) && !ShortNames.ReplaceChar(w) && nls.uni2char(w) != []
    ensures ShortNames.ShortInfo(nls, w, ShortNames.UNSEEN).upper <==> w < 0x7F && !Small(w)
    ensures ShortNames.ShortInfo(nls, w, ShortNames.UNSEEN).lower <==> w < 0x7F && !Capital(w)
  {
    if w < 0x7F {
      assert nls.uni2char(w) == [w];
    }
  }

  /** What it notes about a stretch of them: it is ASCII without small letters, or without capitals. */
  lemma CasesMean(nls: ShortNames.Nls, v: seq<u16>)
    requires AsciiDisk(nls) && ShortNames.NlsOk(nls) && WritesAscii(nls) && ShortNames.Faithful(nls, v) && 0 !in v
    ensures ShortNames.AllUpper(nls, v) <==> Ascii(v) && !HasSmall(v)
    ensures ShortNames.AllLower(nls, v) <==> Ascii(v) && !HasCapital(v)
  {
    hide AsciiDisk, ShortNames.NlsOk, WritesAscii, ShortNames.ShortInfo, Small, Capital;
    forall i | 0 <= i < |v|
      ensures ShortNames.ShortInfo(nls, v[i], ShortNames.UNSEEN).upper <==> v[i] < 0x7F && !Small(v[i])
      ensures ShortNames.ShortInfo(nls, v[i], ShortNames.UNSEEN).lower <==> v[i] < 0x7F && !Capital(v[i])
    {
      assert v[i] in v;
      CaseNoted(nls, v[i]);
    }
  }

  lemma FirstDotIs(u: seq<u16>, d: nat)
    requires d <= |u| && (forall i :: 0 <= i < d ==> u[i] != DOT_UNIT) && (d < |u| ==> u[d] == DOT_UNIT)
    ensures FirstDot(u) == d
  {
    var e := FirstDot(u);
    assert forall i :: 0 <= i < e ==> u[..e][i] == u[i];
  }

  /** No part of a name that fits 8.3 has a dot, so the parts are those around the first one. */
  lemma PartsAtDot(nls: ShortNames.Nls, u: seq<u16>, sz: nat, ext: nat)
    requires u != [] && ShortNames.Divides(u, sz, ext) && sz <= |u| && ext <= |u|
    requires ShortNames.Faithful(nls, u[..sz]) && ShortNames.Faithful(nls, u[ext..])
    ensures u[..sz] == BasePart(u) && u[ext..] == ExtPart(u) && u[..sz] != []
    ensures FirstDot(u) < |u| ==> u[ext..] != []
  {
    forall i | 0 <= i < sz ensures u[i] != DOT_UNIT {
      assert !ShortNames.SkipChar(u[..sz][i]);
    }
    FirstDotIs(u, sz);
  }

  /** An 8.3 name is divided at its dot. */
  lemma DotDivides(u: seq<u16>, sz: nat, ext: nat)
    requires Name83(u) && ShortNames.Divides(u, sz, ext)
    ensures sz <= |u| && ext <= |u| && u[..sz] == BasePart(u) && u[ext..] == ExtPart(u)
  {
    var d := FirstDot(u);
    NoDot83(BasePart(u), 8);
    forall i | 0 <= i < d ensures u[i] != DOT_UNIT && !ShortNames.SkipChar(u[i]) {
      assert BasePart(u)[i] == u[i];
    }
    if d < |u| {
      NoDot83(ExtPart(u), 3);
      forall i | d < i < |u| ensures u[i] != DOT_UNIT {
        assert ExtPart(u)[i - (d + 1)] == u[i];
      }
      DotAt(u, d, sz, ext);
    }
  }

  lemma DotAt(u: seq<u16>, d: nat, sz: nat, ext: nat)
    requires d < |u| - 1 && d > 0 && u[d] == DOT_UNIT && forall i :: 0 <= i < |u| && i != d ==> u[i] != DOT_UNIT
    requires !ShortNames.SkipChar(u[0]) && ShortNames.Divides(u, sz, ext)
    ensures sz == d && ext == d + 1
  {
  }

  /** Characters of an 8.3 name are neither skipped nor replaced. */
  lemma NoDot83(v: seq<u16>, most: nat)
    requires Part83(v, most)
    ensures forall i :: 0 <= i < |v| ==>
      v[i] > 0x20 && v[i] != DOT_UNIT && !ShortNames.SkipChar(v[i]) && !ShortNames.ReplaceChar(v[i])
  {
    forall i | 0 <= i < |v|
      ensures v[i] > 0x20 && v[i] != DOT_UNIT && !ShortNames.SkipChar(v[i]) && !ShortNames.ReplaceChar(v[i])
    {
      assert Legal(Upper(v[i]));
    }
  }

  /** Such a part is its own alias, in capitals. */
  lemma Alias83(nls: ShortNames.Nls, v: seq<u16>, most: nat)
    requires AsciiDisk(nls) && WritesAscii(nls) && Part83(v, most)
    ensures Plain(v) && ShortNames.Faithful(nls, v) && ShortNames.Translated(nls, v) == UpperAll(v)
    ensures ShortNames.PartFits(nls, v, most) && 0 !in v && Ascii(v)
  {
    hide AsciiDisk, ShortNames.Translated;
    NoDot83(v, most);
    forall i | 0 <= i < |v| ensures nls.uni2char(v[i]) == [v[i]] && ShortNames.ShortChar(nls, v[i]) == [Upper(v[i])] {
      UpperIs(nls, v[i]);
    }
    TranslatedUpper(nls, v);
  }

  lemma UpperIs(nls: ShortNames.Nls, b: byte)
    requires AsciiDisk(nls) && b < 0x7F
    ensures nls.upper(b) == Upper(b)
  {
  }

  /** A part of an accepted name that fits and is ASCII is such a part. */
  lemma Fits83(nls: ShortNames.Nls, u: seq<u16>, v: seq<u16>, most: nat)
    requires AsciiDisk(nls) && ShortNames.NlsOk(nls) && WritesAscii(nls) && Acceptable(u)
    requires ShortNames.PartFits(nls, v, most) && Ascii(v) && v != [] && forall i :: 0 <= i < |v| ==> v[i] in u
    requires ShortNames.AllUpper(nls, v) || ShortNames.AllLower(nls, v)
    ensures Part83(v, most)
  {
    hide AsciiDisk, ShortNames.NlsOk, ShortNames.AllUpper, ShortNames.AllLower, ShortNames.Translated, Legal;
    FaithfulPlain(nls, u, v);
    PartAlias(nls, v);
    forall i | 0 <= i < |v| ensures Legal(Upper(v[i])) {
      assert v[i] in u && !BadChar(v[i]);
      CharacterSets(v[i], false, false);
    }
  }

  lemma BothParts(nls: ShortNames.Nls, opts: ShortNames.Options, base: seq<u16>, ext: seq<u16>)
    requires AsciiDisk(nls) && ShortNames.NlsOk(nls) && WritesAscii(nls)
    requires ShortNames.Faithful(nls, base) && ShortNames.Faithful(nls, ext) && 0 !in base && 0 !in ext
    ensures ShortNames.StandsAlone(nls, opts, base, ext) <==>
      && ShortNames.PartFits(nls, base, 8) && ShortNames.PartFits(nls, ext, 3) && Ascii(base) && Ascii(ext)
      && (if opts.win95 then !HasSmall(base) && !HasSmall(ext)
          else !(HasSmall(base) && HasCapital(base)) && !(HasSmall(ext) && HasCapital(ext)))
    ensures ShortNames.StandsAlone(nls, opts, base, ext) ==>
      && (ShortNames.LowerPart(nls, opts, base) <==> Flagged(opts, base))
      && (ShortNames.LowerPart(nls, opts, ext) <==> Flagged(opts, ext))
  {
    hide AsciiDisk, ShortNames.NlsOk, WritesAscii, ShortNames.Faithful, ShortNames.AllUpper, ShortNames.AllLower,
      ShortNames.PartFits, HasSmall, HasCapital, Ascii;
    CasesMean(nls, base);
    CasesMean(nls, ext);
  }

  lemma SmallParts(u: seq<u16>)
    ensures HasSmall(u) <==> HasSmall(BasePart(u)) || HasSmall(ExtPart(u))
    ensures HasCapital(u) <==> HasCapital(BasePart(u)) || HasCapital(ExtPart(u))
  {
    var d, b, e := FirstDot(u), BasePart(u), ExtPart(u);
    forall i | 0 <= i < |u|
      ensures Small(u[i]) ==> HasSmall(b) || HasSmall(e)
      ensures Capital(u[i]) ==> HasCapital(b) || HasCapital(e)
    {
      if i < d {
        assert b[i] == u[i];
      } else if i > d {
        assert e[i - (d + 1)] == u[i];
      }
    }
    assert forall i :: 0 <= i < |b| ==> b[i] == u[i];
    assert forall i :: 0 <= i < |e| ==> e[i] == u[i + (d + 1)];
  }

  /** When a name stands alone, by its characters and the options, and which parts are then flagged. */
  lemma StandsAloneMeans(nls: ShortNames.Nls, opts: ShortNames.Options, u: seq<u16>, sz: nat, ext: nat)
    requires AsciiDisk(nls) && ShortNames.NlsOk(nls) && WritesAscii(nls) && Acceptable(u)
    requires ShortNames.Divides(u, sz, ext) && sz <= |u| && ext <= |u|
    ensures ShortNames.StandsAlone(nls, opts, u[..sz], u[ext..]) <==> OneSlot(opts, u)
    ensures OneSlot(opts, u) ==>
      && u[..sz] == BasePart(u) && u[ext..] == ExtPart(u)
      && (ShortNames.LowerPart(nls, opts, u[..sz]) <==> Flagged(opts, BasePart(u)))
      && (ShortNames.LowerPart(nls, opts, u[ext..]) <==> Flagged(opts, ExtPart(u)))
  {
    hide AsciiDisk, ShortNames.NlsOk, WritesAscii, ShortNames.Divides, ShortNames.AllUpper, ShortNames.AllLower,
      ShortNames.LowerPart, HasSmall, HasCapital, Acceptable, BasePart, ExtPart, Part83, Ascii, ShortNames.Translated;
    SmallParts(u);
    if OneSlot(opts, u) {
      DotDivides(u, sz, ext);
      Alias83(nls, u[..sz], 8);
      ExtFits(nls, u);
      BothParts(nls, opts, u[..sz], u[ext..]);
    } else if ShortNames.StandsAlone(nls, opts, u[..sz], u[ext..]) {
      AloneIs83(nls, opts, u, sz, ext);
    }
  }

  lemma ExtFits(nls: ShortNames.Nls, u: seq<u16>)
    requires AsciiDisk(nls) && WritesAscii(nls) && Name83(u)
    ensures Plain(ExtPart(u)) && ShortNames.Faithful(nls, ExtPart(u)) && ShortNames.PartFits(nls, ExtPart(u), 3)
    ensures ShortNames.Translated(nls, ExtPart(u)) == UpperAll(ExtPart(u)) && 0 !in ExtPart(u) && Ascii(ExtPart(u))
  {
    if FirstDot(u) < |u| {
      Alias83(nls, ExtPart(u), 3);
    } else {
      assert ShortNames.Translated(nls, []) == [] == UpperAll([]);
    }
  }

  lemma AloneIs83(nls: ShortNames.Nls, opts: ShortNames.Options, u: seq<u16>, sz: nat, ext: nat)
    requires AsciiDisk(nls) && ShortNames.NlsOk(nls) && WritesAscii(nls) && Acceptable(u)
    requires ShortNames.Divides(u, sz, ext) && sz <= |u| && ext <= |u|
    requires ShortNames.StandsAlone(nls, opts, u[..sz], u[ext..])
    ensures OneSlot(opts, u)
  {
    hide AsciiDisk, ShortNames.NlsOk, WritesAscii, ShortNames.AllUpper, ShortNames.AllLower, ShortNames.Divides,
      HasSmall, HasCapital, Part83, Ascii, BadChar, ShortNames.Faithful, ShortNames.Translated;
    var b, e := u[..sz], u[ext..];
    AboveBlank(u);
    PartsAtDot(nls, u, sz, ext);
    BothParts(nls, opts, b, e);
    SmallParts(u);
    Fits83(nls, u, b, 8);
    if e != [] {
      Fits83(nls, u, e, 3);
    }
  }

  /** Which aliases stand alone, with which flags and which bytes. */
  lemma AliasAlone(
    es: seq<Slot>, nls: ShortNames.Nls, opts: ShortNames.Options, u: seq<u16>, jiffies: int, a: ShortNames.Alias)
    requires AsciiDisk(nls) && ShortNames.NlsOk(nls) && WritesAscii(nls) && Acceptable(u)
    requires a.Alias? && ShortNames.AliasOk(es, nls, opts, u, jiffies, a)
    ensures a.alone <==> OneSlot(opts, u)
    ensures a.lowerBase <==> a.alone && Flagged(opts, BasePart(u))
    ensures a.lowerExt <==> a.alone && Flagged(opts, ExtPart(u))
    ensures a.alone ==> a.name == Capitals83(u)
  {
    hide AsciiDisk, ShortNames.NlsOk, WritesAscii, ShortNames.Divides, ShortNames.MadeFrom, ShortNames.Storable,
      ShortNames.StandsAlone, ShortNames.LowerPart, OneSlot, Flagged, Acceptable, Name83;
    var sz: nat, ext: nat :|
      ShortNames.Divides(u, sz, ext) && ShortNames.AliasFor(es, nls, opts, u, jiffies, sz, ext, a);
    StandsAloneMeans(nls, opts, u, sz, ext);
    if a.alone {
      Capitals83Is(nls, opts, u);
    }
  }

  /** The stored bytes of an 8.3 name: both parts in capitals, filled up with blanks. */
  function Capitals83(u: seq<u16>): (name: seq<byte>)
    ensures |name| == MSDOS_NAME
  {
    if Name83(u) then CapitalField(BasePart(u), 8) + CapitalField(ExtPart(u), 3) else Blanks(MSDOS_NAME)
  }

  function CapitalField(v: seq<u16>, n: nat): (r: seq<byte>)
    ensures |r| == n
  {
    seq(n, i requires 0 <= i < n => if i < |v| && v[i] < 0x7F then Upper(v[i]) else SPACE)
  }

  lemma Capitals83Is(nls: ShortNames.Nls, opts: ShortNames.Options, u: seq<u16>)
    requires AsciiDisk(nls) && WritesAscii(nls) && OneSlot(opts, u)
    ensures Plain(BasePart(u)) && Plain(ExtPart(u)) && 1 <= |BasePart(u)| <= 8 && |ExtPart(u)| <= 3
    ensures ShortNames.Translated(nls, BasePart(u)) == UpperAll(BasePart(u))
    ensures ShortNames.Translated(nls, ExtPart(u)) == UpperAll(ExtPart(u))
    ensures Capitals83(u) == ShortNames.Joined(StoreFirst(UpperAll(BasePart(u))), UpperAll(ExtPart(u)))
    ensures ShortNames.Storable(Capitals83(u))
  {
    hide AsciiDisk, WritesAscii, ShortNames.Translated, Legal;
    var b, e := BasePart(u), ExtPart(u);
    Alias83(nls, b, 8);
    ExtFits(nls, u);
    NoDot83(b, 8);
    var name := Capitals83(u);
    assert UpperAll(b)[0] == Upper(b[0]) && StoreFirst(UpperAll(b)) == UpperAll(b);
    assert CapitalField(b, 8) == Pad(UpperAll(b), 8) && CapitalField(e, 3) == Pad(UpperAll(e), 3);
    assert name[0] == Upper(b[0]);
    forall i | 0 <= i < MSDOS_NAME ensures name[i] != 0 {
      assert name[i] == if i < 8 then CapitalField(b, 8)[i] else CapitalField(e, 3)[i - 8];
    }
  }

  /** The slots of a name: just one exactly if it is an 8.3 name of that kind. */
  lemma SlotCount(q: Request, es: seq<Slot>, name: seq<byte>, u: seq<u16>, slots: seq<Slot>)
    requires PagesOk(q) && WritesAscii(q.nls) && SlotsFor(es, q, name, u, slots)
    ensures |slots| == 1 <==> OneSlot(q.opts, u)
    ensures |slots| == 1 ==> slots == [OneEntry(q, u)]
  {
    hide AsciiDisk, WritesAscii, AsciiShown, TwoSided, NoZeroUnit, RequestOk, ShortNames.AliasOk, OneSlot, NameFree,
      ShortNames.Storable, Acceptable, NameText.Xlate, ShortNames.Divides, ShortNames.StandsAlone,
      ShortNames.LowerPart, ShortNames.ShortForm, ShortEntry, CaseFlags, Flagged;
    var s := slots[|slots| - 1];
    var sz: nat, ext: nat :| ShortNames.Divides(u, sz, ext) && ShortBy(q, u, sz, ext, |slots|, s);
    PagesAscii(q);
    StandsAloneMeans(q.nls, q.opts, u, sz, ext);
    if |slots| == 1 {
      var a :| ShortNames.AliasOk(es, q.nls, q.opts, u, q.jiffies, a) && a.Alias? && a.name == ShortName(s)
        && (a.alone <==> |slots| == 1);
      AliasAlone(es, q.nls, q.opts, u, q.jiffies, a);
      FlagsMean(q, u[..sz], u[ext..]);
      assert slots == [s];
    }
  }

  lemma PagesAscii(q: Request)
    requires PagesOk(q)
    ensures AsciiDisk(q.nls) && ShortNames.NlsOk(q.nls) && AsciiShown(q.cp) && TwoSided(q.cp)
    ensures RequestOk(q) && NameText.CodePageOk(q.cp) && q.cluster < 0x1_0000_0000
  {
  }

  lemma FlagsMean(q: Request, base: seq<u16>, ext: seq<u16>)
    ensures CaseFlags(q, base, ext)
      == (if ShortNames.LowerPart(q.nls, q.opts, base) then 8 else 0)
        + (if ShortNames.LowerPart(q.nls, q.opts, ext) then 16 else 0)
  {
  }

  /** The one entry of such a name. */
  function OneEntry(q: Request, u: seq<u16>): Slot
  {
    if q.cluster < 0x1_0000_0000
    then
      ShortEntry(
        Capitals83(u), q.isDir,
        (if Flagged(q.opts, BasePart(u)) then 8 else 0) + (if Flagged(q.opts, ExtPart(u)) then 16 else 0),
        q.times, q.cluster)
    else ZeroSlot()
  }

  function ExtStart(u: seq<u16>): (ext: nat)
    ensures ext <= |u|
  {
    if FirstDot(u) < |u| then FirstDot(u) + 1 else |u|
  }

  lemma DividedHere(u: seq<u16>)
    requires Name83(u)
    ensures ShortNames.Divides(u, FirstDot(u), ExtStart(u))
    ensures u[..FirstDot(u)] == BasePart(u) && u[ExtStart(u)..] == ExtPart(u)
    ensures |u| <= 12
  {
    var d := FirstDot(u);
    NoDot83(BasePart(u), 8);
    assert !ShortNames.SkipChar(BasePart(u)[0]) && BasePart(u)[0] == u[0];
    if d < |u| {
      NoDot83(ExtPart(u), 3);
    }
  }

  /** What the loops over base and extension come to. */
  lemma PartsMade(nls: ShortNames.Nls, v: seq<u16>)
    requires Plain(v) && ShortNames.Faithful(nls, v)
    requires forall j :: 0 <= j <= |v| ==> |ShortNames.Translated(nls, v[..j])| == j
    ensures var info := ShortNames.Info(ShortNames.AllLower(nls, v), ShortNames.AllUpper(nls, v), true);
      && (1 <= |v| <= 8 ==>
        ShortNames.BaseOf(nls, v, ShortNames.Base(ShortNames.Translated(nls, v), 6, 2, true, info)))
      && (|v| <= 3 ==> ShortNames.ExtOf(nls, v, ShortNames.Ext(ShortNames.Translated(nls, v), true, info)))
  {
    hide ShortNames.AllLower, ShortNames.AllUpper, ShortNames.Translated;
    assert v[..|v|] == v;
    if |v| > 6 {
      assert |ShortNames.Translated(nls, v[..6])| == 6;
    }
    if |v| > 2 {
      assert |ShortNames.Translated(nls, v[..2])| == 2;
    }
    assert |ShortNames.Translated(nls, v[..|v|])| == |v|;
  }

  lemma PrefixLengths(nls: ShortNames.Nls, v: seq<u16>, most: nat)
    requires AsciiDisk(nls) && WritesAscii(nls) && (v == [] || Part83(v, most))
    ensures forall j :: 0 <= j <= |v| ==> |ShortNames.Translated(nls, v[..j])| == j
  {
    hide AsciiDisk, WritesAscii, Legal;
    forall j | 0 <= j <= |v| ensures |ShortNames.Translated(nls, v[..j])| == j {
      if j > 0 {
        Alias83(nls, v[..j], most);
      }
    }
  }

  lemma Made83(es: seq<Slot>, q: Request, u: seq<u16>)
    requires AsciiDisk(q.nls) && WritesAscii(q.nls) && OneSlot(q.opts, u)
    ensures exists b, e ::
      ShortNames.MadeFrom(es, q.nls, q.opts, u, FirstDot(u), ExtStart(u), b, e, q.jiffies, Capitals83(u))
    ensures ShortNames.ShortForm(q.nls, u, FirstDot(u), ExtStart(u), Capitals83(u))
  {
    hide AsciiDisk, WritesAscii, Legal, ShortNames.AllLower, ShortNames.AllUpper, ShortNames.Translated,
      ShortNames.BaseOf, ShortNames.ExtOf, ShortNames.Faithful, Capitals83, ShortNames.FirstTail, ShortNames.Joined;
    var nls, v, w := q.nls, BasePart(u), ExtPart(u);
    DividedHere(u);
    Capitals83Is(nls, q.opts, u);
    Alias83(nls, v, 8);
    ExtFits(nls, u);
    PrefixLengths(nls, v, 8);
    PrefixLengths(nls, w, 3);
    PartsMade(nls, v);
    PartsMade(nls, w);
    var b := ShortNames.Base(
      ShortNames.Translated(nls, v), 6, 2, true,
      ShortNames.Info(ShortNames.AllLower(nls, v), ShortNames.AllUpper(nls, v), true));
    var e := ShortNames.Ext(
      ShortNames.Translated(nls, w), true,
      ShortNames.Info(ShortNames.AllLower(nls, w), ShortNames.AllUpper(nls, w), true));
    assert ShortNames.MadeFrom(es, nls, q.opts, u, FirstDot(u), ExtStart(u), b, e, q.jiffies, Capitals83(u));
  }

  lemma NameIs83(opts: ShortNames.Options, u: seq<u16>)
    requires OneSlot(opts, u)
    ensures Name83(u)
  {
  }

  function OneAlias(q: Request, u: seq<u16>): ShortNames.Alias {
    ShortNames.Alias(Capitals83(u), true, Flagged(q.opts, BasePart(u)), Flagged(q.opts, ExtPart(u)))
  }

  lemma OneAliasMade(es: seq<Slot>, q: Request, u: seq<u16>)
    requires PagesOk(q) && WritesAscii(q.nls) && OneSlot(q.opts, u) && Acceptable(u) && NameFree(es, Capitals83(u))
    ensures ShortNames.AliasOk(es, q.nls, q.opts, u, q.jiffies, OneAlias(q, u))
  {
    hide *;
    PagesAscii(q);
    NameIs83(q.opts, u);
    DividedHere(u);
    StandsAloneMeans(q.nls, q.opts, u, FirstDot(u), ExtStart(u));
    Capitals83Is(q.nls, q.opts, u);
    Made83(es, q, u);
    AliasOkBy(es, q, u, FirstDot(u), ExtStart(u));
  }

  lemma AliasOkBy(es: seq<Slot>, q: Request, u: seq<u16>, sz: nat, ext: nat)
    requires ShortNames.Divides(u, sz, ext) && sz <= |u| && ext <= |u|
    requires ShortNames.StandsAlone(q.nls, q.opts, u[..sz], u[ext..])
    requires ShortNames.LowerPart(q.nls, q.opts, u[..sz]) <==> Flagged(q.opts, BasePart(u))
    requires ShortNames.LowerPart(q.nls, q.opts, u[ext..]) <==> Flagged(q.opts, ExtPart(u))
    requires ShortNames.Storable(Capitals83(u)) && NameFree(es, Capitals83(u))
    requires ShortNames.ShortForm(q.nls, u, sz, ext, Capitals83(u))
    requires exists b, e :: ShortNames.MadeFrom(es, q.nls, q.opts, u, sz, ext, b, e, q.jiffies, Capitals83(u))
    ensures ShortNames.AliasOk(es, q.nls, q.opts, u, q.jiffies, OneAlias(q, u))
  {
    hide ShortNames.Divides, ShortNames.StandsAlone, ShortNames.LowerPart, ShortNames.Storable, ShortNames.ShortForm,
      ShortNames.MadeFrom, NameFree, Capitals83, Flagged, BasePart, ExtPart;
    assert ShortNames.AliasFor(es, q.nls, q.opts, u, q.jiffies, sz, ext, OneAlias(q, u));
  }

  /** A name of that kind whose capitals are not in the directory does get that entry. */
  lemma OneSlotMade(es: seq<Slot>, q: Request, name: seq<byte>, u: seq<u16>)
    requires PagesOk(q) && WritesAscii(q.nls) && OneSlot(q.opts, u) && Acceptable(u)
    requires NameText.Xlate(q.cp, q.escape, name, 0) == NameText.Units(u) && NameFree(es, Capitals83(u))
    ensures SlotsFor(es, q, name, u, [OneEntry(q, u)])
  {
    hide PagesOk, WritesAscii, OneSlot, NameFree, ShortNames.AliasOk, ShortNames.Storable, Acceptable, NameText.Xlate,
      ShortFor, ShortEntry, LiveShort, IsLong, Capitals83, Flagged, Name83;
    PagesAscii(q);
    NameIs83(q.opts, u);
    DividedHere(u);
    OneAliasMade(es, q, u);
    OneEntryIs(es, q, u);
    var a := OneAlias(q, u);
    assert a.name == ShortName(OneEntry(q, u));
  }

  lemma OneEntryIs(es: seq<Slot>, q: Request, u: seq<u16>)
    requires q.cluster < 0x1_0000_0000 && RequestOk(q)
    requires ShortNames.AliasOk(es, q.nls, q.opts, u, q.jiffies, OneAlias(q, u))
    ensures var s := OneEntry(q, u);
      && ShortName(s) == Capitals83(u) && ShortNames.Storable(ShortName(s)) && NameFree(es, ShortName(s))
      && LiveShort(s) && !IsLong(s) && ShortFor(q, u, 1, s)
  {
    hide RequestOk, ShortNames.AliasOk, ShortNames.Storable, NameFree, ShortFor, LiveShort, IsLong, ShortEntry, Flagged,
      Capitals83, BasePart, ExtPart;
    var a := OneAlias(q, u);
    var lcase: byte := (if a.lowerBase then CASE_LOWER_BASE else 0) + (if a.lowerExt then CASE_LOWER_EXT else 0);
    AliasEntry(es, q, u, a, lcase, 1);
    ShortEntryLive(a.name, q.isDir, lcase, q.times, q.cluster);
  }

  // ----- escapes --------------------------------------------------------------------------------

  /** The escape in front of `s` is what its unit is shown as: the unit has no character, and on a
      strict mount the digits are small. */
  predicate EscapePlain(cp: NameText.CodePage, strict: bool, s: seq<byte>)
    requires |s| >= 5
  {
    && NameText.HexAt(s) < 0x1_0000 && cp.uni2char(NameText.HexAt(s)) == []
    && (strict ==> forall k :: 1 <= k < 5 ==> NameText.SmallDigit(s[k]))
  }

  /** Every escape of the name is plain. */
  predicate EscapesPlain(cp: NameText.CodePage, escape: bool, strict: bool, s: seq<byte>)
    decreases |s|
  {
    if s == [] then true
    else match NameText.FirstUnit(cp, escape, s)
      case NoChar => false
      case Char(len, _) =>
        && 1 <= len <= |s| && (escape && s[0] == NameText.COLON ==> EscapePlain(cp, strict, s))
        && EscapesPlain(cp, escape, strict, s[len..])
  }

  /** What is assumed of a page whose names are compared without regard to case. */
  ghost predicate CaseOk(cp: NameText.CodePage, strict: bool) {
    strict || (AsciiShown(cp) && ColonShown(cp))
  }

  /** The text of a long name is the name it was made of, as names are compared, exactly if its
      escapes are plain. */
  lemma {:induction false} LongTextIsName(
    cp: NameText.CodePage, escape: bool, strict: bool, s: seq<byte>, n: nat, u: seq<u16>)
    requires NameText.CodePageOk(cp) && TwoSided(cp) && CaseOk(cp, strict)
    requires NameText.Xlate(cp, escape, s, n) == NameText.Units(u) && NameText.COLON !in u
    ensures Same(cp, strict, s, NameText.ShownAll(cp, escape, u)) <==> EscapesPlain(cp, escape, strict, s)
    decreases |s|
  {
    hide NameText.CodePageOk, NameText.Shown, TwoSided, CaseOk, Same, EscapePlain;
    if s == [] {
      assert u == [];
      SameEmpty(cp, strict);
    } else {
      var r := NameText.FirstUnit(cp, escape, s);
      var rest := s[r.len..];
      assert u == [r.unit] + u[1..] && NameText.Xlate(cp, escape, rest, n + 1) == NameText.Units(u[1..]);
      assert NameText.COLON !in u[1..] && r.unit != NameText.COLON;
      LongTextIsName(cp, escape, strict, rest, n + 1, u[1..]);
      HeadShown(cp, escape, strict, s);
      var head, tail := NameText.Shown(cp, escape, r.unit), NameText.ShownAll(cp, escape, u[1..]);
      assert s == s[..r.len] + rest;
      HeadsAgree(cp, strict, s[..r.len], rest, head, tail);
    }
  }

  lemma SameEmpty(cp: NameText.CodePage, strict: bool)
    ensures Same(cp, strict, [], [])
  {
  }

  /** Two bytes as `Same` compares them. */
  predicate SameByte(cp: NameText.CodePage, strict: bool, a: byte, b: byte) {
    if strict then a == b else cp.lower(a) == cp.lower(b)
  }

  lemma SameBytes(cp: NameText.CodePage, strict: bool, a: seq<byte>, b: seq<byte>)
    ensures Same(cp, strict, a, b) <==> |a| == |b| && forall i :: 0 <= i < |a| ==> SameByte(cp, strict, a[i], b[i])
  {
  }

  lemma HeadsAgree(
    cp: NameText.CodePage, strict: bool, a: seq<byte>, b: seq<byte>, c: seq<byte>, d: seq<byte>)
    requires a != [] && c != [] && (|a| == |c| || !SameByte(cp, strict, a[0], c[0]))
    ensures Same(cp, strict, a + b, c + d) <==> Same(cp, strict, a, c) && Same(cp, strict, b, d)
  {
    hide Same, SameByte;
    SameBytes(cp, strict, a + b, c + d);
    SameBytes(cp, strict, a, c);
    SameBytes(cp, strict, b, d);
    if Same(cp, strict, a + b, c + d) {
      assert SameByte(cp, strict, (a + b)[0], (c + d)[0]);
      forall i | 0 <= i < |a| ensures SameByte(cp, strict, a[i], c[i]) {
        assert SameByte(cp, strict, (a + b)[i], (c + d)[i]);
      }
      forall i | 0 <= i < |b| ensures SameByte(cp, strict, b[i], d[i]) {
        assert SameByte(cp, strict, (a + b)[|a| + i], (c + d)[|a| + i]);
      }
    }
  }

  /** What is shown of the first character: what stood there; or of an escape that, or else a
      character that begins with no colon. */
  lemma HeadShown(cp: NameText.CodePage, escape: bool, strict: bool, s: seq<byte>)
    requires NameText.CodePageOk(cp) && TwoSided(cp) && CaseOk(cp, strict)
    requires s != [] && NameText.FirstUnit(cp, escape, s).Char?
    requires NameText.FirstUnit(cp, escape, s).unit != NameText.COLON
    ensures var r := NameText.FirstUnit(cp, escape, s);
      var head := NameText.Shown(cp, escape, r.unit);
      && 1 <= r.len <= |s| && head != []
      && (|head| == r.len || !SameByte(cp, strict, s[0], head[0]))
      && (escape && s[0] == NameText.COLON ==>
        |s| >= 5 && (Same(cp, strict, s[..r.len], head) <==> EscapePlain(cp, strict, s)))
      && (!(escape && s[0] == NameText.COLON) ==> Same(cp, strict, s[..r.len], head))
  {
    var r := NameText.FirstUnit(cp, escape, s);
    if !(escape && s[0] == NameText.COLON) {
      assert cp.char2uni(s) == r && cp.uni2char(r.unit) == s[..r.len];
    } else if cp.uni2char(r.unit) == [] {
      EscapeShown(cp, strict, s);
    } else {
      assert cp.uni2char(r.unit)[0] != NameText.COLON;
      assert strict || cp.lower(NameText.COLON) == NameText.COLON;
    }
  }

  /** The escape of a unit without a character is shown as itself, with small digits. */
  lemma EscapeShown(cp: NameText.CodePage, strict: bool, s: seq<byte>)
    requires |s| >= 5 && s[0] == NameText.COLON && NameText.HexAt(s) < 0x1_0000 && CaseOk(cp, strict)
    requires cp.uni2char(NameText.HexAt(s)) == []
    ensures Same(cp, strict, s[..5], [NameText.COLON] + NameText.HexUnit(NameText.HexAt(s)))
      <==> EscapePlain(cp, strict, s)
  {
    hide NameText.HexUnit;
    var shown := [NameText.COLON] + NameText.HexUnit(NameText.HexAt(s));
    DigitsOf(s);
    forall k | 1 <= k < 5
      ensures s[..5][k] == shown[k] <==> NameText.SmallDigit(s[k])
      ensures NameText.HexValue(s[k]) < 16 && Lower(s[k]) == shown[k] == Lower(shown[k])
      ensures s[k] < 0x7F && shown[k] < 0x7F
    {
      SmallOrNot(s[k]);
    }
  }

  /** The digits of an escape, one by one. */
  lemma DigitsOf(s: seq<byte>)
    requires |s| >= 5 && NameText.HexAt(s) < 0x1_0000
    ensures forall k :: 1 <= k < 5 ==> NameText.HexValue(s[k]) < 16
    ensures forall k :: 1 <= k < 5 ==>
      ([NameText.COLON] + NameText.HexUnit(NameText.HexAt(s)))[k] == NameText.LowerHex(NameText.HexValue(s[k]))
  {
    hide NameText.LowerHex, NameText.HexValue;
    HexParts(NameText.HexValue(s[1]), NameText.HexValue(s[2]), NameText.HexValue(s[3]), NameText.HexValue(s[4]));
  }

  lemma HexParts(a: nat, b: nat, c: nat, d: nat)
    requires a < 16 && b < 16 && c < 16 && d < 16
    ensures var n := a * 4096 + b * 256 + c * 16 + d;
      n / 4096 == a && n / 256 % 16 == b && n / 16 % 16 == c && n % 16 == d
  {
    var n := a * 4096 + b * 256 + c * 16 + d;
    assert n / 256 == a * 16 + b;
    assert n / 16 == (a * 16 + b) * 16 + c;
  }

  lemma SmallOrNot(b: byte)
    requires NameText.HexValue(b) < 16
    ensures b < 0x7F && Lower(b) == NameText.LowerHex(NameText.HexValue(b)) < 0x7F
    ensures Lower(Lower(b)) == Lower(b) && (b == Lower(b) <==> NameText.SmallDigit(b))
  {
  }

  /** Wherever a colon stands there is a plain escape. */
  ghost predicate ColonsPlain(cp: NameText.CodePage, t: seq<byte>) {
    forall p :: 0 <= p < |t| && t[p] == NameText.COLON ==> EscapeAt(cp, t, p)
  }

  ghost predicate EscapeAt(cp: NameText.CodePage, t: seq<byte>, p: nat) {
    p + 5 <= |t| && EscapePlain(cp, true, t[p..])
  }

  /** So it is in any text shown of units that are no colon. */
  lemma {:induction false} ShownPlain(cp: NameText.CodePage, v: seq<u16>)
    requires ColonShown(cp) && NameText.COLON !in v
    ensures ColonsPlain(cp, NameText.ShownAll(cp, true, v))
    decreases |v|
  {
    hide EscapePlain, NameText.Shown;
    if v != [] {
      var head, tail := NameText.Shown(cp, true, v[0]), NameText.ShownAll(cp, true, v[1..]);
      ShownPlain(cp, v[1..]);
      forall p | 0 <= p < |head + tail| && (head + tail)[p] == NameText.COLON ensures EscapeAt(cp, head + tail, p) {
        if p >= |head| {
          assert tail[p - |head|] == NameText.COLON && EscapeAt(cp, tail, p - |head|);
          assert (head + tail)[p..] == tail[p - |head|..];
        } else {
          HeadPlain(cp, v[0], tail, p);
        }
      }
    }
  }

  lemma HeadPlain(cp: NameText.CodePage, c: u16, tail: seq<byte>, p: nat)
    requires ColonShown(cp) && c != NameText.COLON
    requires p < |NameText.Shown(cp, true, c)| && NameText.Shown(cp, true, c)[p] == NameText.COLON
    ensures EscapeAt(cp, NameText.Shown(cp, true, c) + tail, p)
  {
    hide NameText.HexUnit;
    var head := NameText.Shown(cp, true, c);
    NameText.HexUnitBack(c, tail);
    ColonFirst(cp, c, p);
    assert (head + tail)[0..] == head + tail;
    forall k | 1 <= k < 5 ensures (head + tail)[k] == NameText.HexUnit(c)[k - 1] {
    }
  }

  lemma ColonFirst(cp: NameText.CodePage, c: u16, p: nat)
    requires ColonShown(cp) && c != NameText.COLON
    requires p < |NameText.Shown(cp, true, c)| && NameText.Shown(cp, true, c)[p] == NameText.COLON
    ensures cp.uni2char(c) == [] && p == 0
  {
    hide NameText.HexUnit;
    NameText.HexUnitBack(c, []);
    assert forall k :: 1 <= k < 5 ==> ([NameText.COLON] + NameText.HexUnit(c))[k] == NameText.HexUnit(c)[k - 1];
  }

  /** A name that is the same as such a text, as names are compared, has plain escapes only. */
  lemma {:induction false} SameAsPlain(
    cp: NameText.CodePage, strict: bool, s: seq<byte>, n: nat, u: seq<u16>, t: seq<byte>)
    requires NameText.CodePageOk(cp) && CaseOk(cp, strict) && ColonsPlain(cp, t)
    requires NameText.Xlate(cp, true, s, n) == NameText.Units(u) && Same(cp, strict, s, t)
    ensures EscapesPlain(cp, true, strict, s)
    decreases |s|
  {
    hide NameText.CodePageOk, CaseOk, EscapePlain, NameText.FirstUnit;
    if s != [] {
      var r := NameText.FirstUnit(cp, true, s);
      var rest, after := s[r.len..], t[r.len..];
      assert u == [r.unit] + u[1..] && NameText.Xlate(cp, true, rest, n + 1) == NameText.Units(u[1..]);
      if s[0] == NameText.COLON {
        FirstIsEscape(cp, s);
        EscapeSame(cp, strict, s, t);
      }
      forall p | 0 <= p < |after| && after[p] == NameText.COLON ensures EscapeAt(cp, after, p) {
        assert EscapeAt(cp, t, r.len + p);
        assert t[r.len + p..] == after[p..];
      }
      assert Same(cp, strict, rest, after) by {
        SameBytes(cp, strict, s, t);
        SameBytes(cp, strict, rest, after);
      }
      SameAsPlain(cp, strict, rest, n + 1, u[1..], after);
    }
  }

  lemma FirstIsEscape(cp: NameText.CodePage, s: seq<byte>)
    requires s != [] && s[0] == NameText.COLON && NameText.FirstUnit(cp, true, s).Char?
    ensures |s| >= 5 && NameText.HexAt(s) < 0x1_0000
  {
  }

  lemma EscapeSame(cp: NameText.CodePage, strict: bool, s: seq<byte>, t: seq<byte>)
    requires CaseOk(cp, strict) && |s| >= 5 && s[0] == NameText.COLON && NameText.HexAt(s) < 0x1_0000
    requires Same(cp, strict, s, t) && ColonsPlain(cp, t)
    ensures EscapePlain(cp, strict, s)
  {
    hide NameText.HexAt, NameText.HexValue, NameText.SmallDigit;
    assert t[0] == NameText.COLON && t[0..] == t && EscapeAt(cp, t, 0);
    if !strict {
      DigitsOf(s);
      DigitsOf(t);
      forall k | 1 <= k < 5 ensures NameText.HexValue(s[k]) == NameText.HexValue(t[k]) {
        SmallOrNot(s[k]);
        SmallOrNot(t[k]);
        assert cp.lower(s[k]) == cp.lower(t[k]);
        HexSame(s[k], t[k]);
      }
      ValueSame(s, t);
    }
  }

  lemma HexSame(a: byte, b: byte)
    requires NameText.HexValue(a) < 16 && NameText.HexValue(b) < 16 && Lower(a) == Lower(b)
    ensures NameText.HexValue(a) == NameText.HexValue(b)
  {
  }

  lemma ValueSame(s: seq<byte>, t: seq<byte>)
    requires |s| >= 5 && |t| >= 5 && forall k :: 1 <= k < 5 ==> NameText.HexValue(s[k]) == NameText.HexValue(t[k])
    ensures NameText.HexAt(s) == NameText.HexAt(t)
  {
    assert NameText.HexValue(s[1]) == NameText.HexValue(t[1]) && NameText.HexValue(s[2]) == NameText.HexValue(t[2]);
    assert NameText.HexValue(s[3]) == NameText.HexValue(t[3]) && NameText.HexValue(s[4]) == NameText.HexValue(t[4]);
  }

  /** Without `uni_xlate` there are no escapes. */
  lemma {:induction false} NoEscapes(cp: NameText.CodePage, strict: bool, s: seq<byte>, n: nat)
    requires NameText.CodePageOk(cp) && NameText.Xlate(cp, false, s, n).Units?
    ensures EscapesPlain(cp, false, strict, s)
    decreases |s|
  {
    if s != [] {
      NoEscapes(cp, strict, s[NameText.FirstUnit(cp, false, s).len..], n + 1);
    }
  }

  // ----- no alias shows a colon ---------------------------------------------------------------------

  predicate NotColon(b: byte) { b != NameText.COLON }

  /** The alias has no byte of a colon. */
  lemma AliasNoColon(
    es: seq<Slot>, nls: ShortNames.Nls, opts: ShortNames.Options, u: seq<u16>, jiffies: int, a: ShortNames.Alias)
    requires ColonDisk(nls) && NameText.COLON !in u
    requires a.Alias? && ShortNames.AliasOk(es, nls, opts, u, jiffies, a)
    ensures NameOnly(NotColon, a.name)
  {
    hide ShortNames.AliasOk, NameOnly;
    forall i | 0 <= i < |u| ensures Only(NotColon, ShortNames.ShortChar(nls, u[i])) {
      assert u[i] in u;
      CharNoColon(nls, u[i]);
    }
    AliasOnly(NotColon, es, nls, opts, u, jiffies, a);
  }

  lemma CharNoColon(nls: ShortNames.Nls, w: u16)
    requires ColonDisk(nls) && w != NameText.COLON
    ensures Only(NotColon, ShortNames.ShortChar(nls, w))
  {
    var c := nls.uni2char(w);
    forall i | 0 <= i < |c| ensures c[i] != NameText.COLON {
      assert c[i] in c;
    }
  }

  lemma {:induction false} PartNoColon(nls: ShortNames.Nls, lower: bool, s: seq<byte>)
    requires ColonDisk(nls) && NameText.COLON !in s
    ensures NameText.COLON !in PartUnits(nls, lower, s)
    decreases |s|
  {
    hide ShowUnit;
    if |s| > 0 && s[0] != 0 {
      UnitNoColon(nls, lower, s);
      PartNoColon(nls, lower, s[Advance(ShowUnit(nls, lower, s).len, |s|)..]);
    }
  }

  lemma UnitNoColon(nls: ShortNames.Nls, lower: bool, s: seq<byte>)
    requires ColonDisk(nls) && |s| > 0 && s[0] != NameText.COLON
    ensures ShowUnit(nls, lower, s).unit != NameText.COLON
  {
    var l := [nls.lower(s[0])];
    assert l[0] != NameText.COLON;
  }

  /** So none of the units shown of its entry is a colon. */
  lemma EntryNoColon(q: Request, display: Display, s: Slot)
    requires ColonDisk(q.nls) && NameOnly(NotColon, ShortName(s))
    ensures NameText.COLON !in UpToZero(ShortUnits(q.nls, display, s))
  {
    hide PartUnits, ShowUnit, ColonDisk, InLower;
    var work := ShowFirst(ShortName(s));
    forall i | 0 <= i < MSDOS_NAME ensures work[i] != NameText.COLON {
    }
    PartNoColon(q.nls, InLower(display, s, CASE_LOWER_BASE), work[..8]);
    PartNoColon(q.nls, InLower(display, s, CASE_LOWER_EXT), work[8..]);
    UnitNoColon(q.nls, false, [DOT_UNIT]);
    var units := ShortUnits(q.nls, display, s);
    forall c | c in UpToZero(units) ensures c in units {
    }
  }

  /** A name that compares as the text of its entry has plain escapes only. */
  lemma TextPlain(
    q: Request, display: Display, strict: bool, es: seq<Slot>, name: seq<byte>, u: seq<u16>, slots: seq<Slot>)
    requires CreatedOk(q) && SlotsFor(es, q, name, u, slots)
    requires Same(q.cp, strict, name, ShortText(q, display, slots[|slots| - 1]))
    ensures EscapesPlain(q.cp, q.escape, strict, name)
  {
    hide *;
    PagesSay(q);
    SlotsShow(es, q, name, u, slots, 0);
    AboveBlank(u);
    if q.escape {
      EntryText(q, display, es, name, u, slots);
      var v := UpToZero(ShortUnits(q.nls, display, slots[|slots| - 1]));
      ShownPlain(q.cp, v);
      CaseIs(q.cp, strict);
      SameAsPlain(q.cp, strict, name, 0, u, NameText.ShownAll(q.cp, true, v));
    } else {
      NoEscapes(q.cp, strict, name, 0);
    }
  }

  lemma PagesSay(q: Request)
    requires CreatedOk(q)
    ensures PagesOk(q) && WritesAscii(q.nls) && ColonShown(q.cp) && ColonDisk(q.nls) && AsciiShown(q.cp)
    ensures NameText.CodePageOk(q.cp) && TwoSided(q.cp)
  {
  }

  lemma CaseIs(cp: NameText.CodePage, strict: bool)
    requires AsciiShown(cp) && ColonShown(cp)
    ensures CaseOk(cp, strict)
  {
  }

  lemma EntryText(q: Request, display: Display, es: seq<Slot>, name: seq<byte>, u: seq<u16>, slots: seq<Slot>)
    requires ColonDisk(q.nls) && NameText.COLON !in u && SlotsFor(es, q, name, u, slots)
    ensures slots != []
    ensures var v := UpToZero(ShortUnits(q.nls, display, slots[|slots| - 1]));
      && NameText.COLON !in v
      && ShortText(q, display, slots[|slots| - 1]) == NameText.ShownAll(q.cp, q.escape, v)
  {
    hide ShortUnits, ColonDisk, EntryAndPieces, ShortNames.AliasOk, NameOnly, NameText.Xlate, Acceptable;
    var s := slots[|slots| - 1];
    var a :| ShortNames.AliasOk(es, q.nls, q.opts, u, q.jiffies, a) && a.Alias? && a.name == ShortName(s)
      && (a.alone <==> |slots| == 1);
    AliasNoColon(es, q.nls, q.opts, u, q.jiffies, a);
    EntryNoColon(q, display, s);
  }

  // ----- what is created is found ----------------------------------------------------------------

  /** The one case in which a name with plain escapes is not found: its entry stands alone, names are
      shown in lower case and compared strictly, and it has a capital letter. */
  predicate ShownOtherwise(opts: ShortNames.Options, display: Display, strict: bool, u: seq<u16>) {
    display == Lowered && strict && OneSlot(opts, u) && HasCapital(u)
  }

  /** The record of a created name bears it exactly if its escapes are plain, but for that case. */
  lemma RecordBears(
    q: Request, display: Display, strict: bool, es: seq<Slot>, name: seq<byte>, u: seq<u16>, slots: seq<Slot>, off: nat)
    requires CreatedOk(q) && DisplayOk(q.opts, display) && SlotsFor(es, q, name, u, slots)
    ensures RecAccepts(Lookup(q, display, strict), name, NewRec(off, u, slots))
      <==> EscapesPlain(q.cp, q.escape, strict, name) && !ShownOtherwise(q.opts, display, strict, u)
  {
    hide *;
    PagesSay(q);
    SlotsShow(es, q, name, u, slots, off);
    SlotCount(q, es, name, u, slots);
    AboveBlank(u);
    CaseIs(q.cp, strict);
    var s := slots[|slots| - 1];
    var short, long := ShortText(q, display, s), NameText.ShownAll(q.cp, q.escape, u);
    LongTextIsName(q.cp, q.escape, strict, name, 0, u);
    SomeText(q, display, s);
    LookupIs(q, display, strict, name, NewRec(off, u, slots));
    if Same(q.cp, strict, name, short) {
      TextPlain(q, display, strict, es, name, u, slots);
    }
    OtherwiseIs(q.opts, display, strict, u);
    if |slots| == 1 {
      AloneText(q, display, u, s);
      PlainName(q, u);
      AloneSame(q.cp, strict, u, name);
    }
  }

  lemma OtherwiseIs(opts: ShortNames.Options, display: Display, strict: bool, u: seq<u16>)
    ensures ShownOtherwise(opts, display, strict, u)
      <==> display == Lowered && strict && OneSlot(opts, u) && HasCapital(u)
  {
  }

  /** A name compared with the text of an entry and with that in lower case. */
  lemma AloneSame(cp: NameText.CodePage, strict: bool, u: seq<u16>, name: seq<byte>)
    requires AsciiShown(cp) && Plain(u) && Plain(LowerAll(u))
    ensures !(strict && HasCapital(u))
      ==> (Same(cp, strict, name, PlainBytes(LowerAll(u))) <==> Same(cp, strict, name, PlainBytes(u)))
    ensures strict && HasCapital(u)
      ==> !(Same(cp, strict, name, PlainBytes(LowerAll(u))) && Same(cp, strict, name, PlainBytes(u)))
  {
    var a, b := PlainBytes(u), PlainBytes(LowerAll(u));
    forall i | 0 <= i < |u| ensures cp.lower(a[i]) == cp.lower(b[i]) && (a[i] == b[i] <==> !Capital(u[i])) {
    }
    if HasCapital(u) {
      var i :| 0 <= i < |u| && Capital(u[i]);
      assert a[i] != b[i];
    } else {
      assert a == b;
    }
  }

  /** Create, then find: if no record bore the name, the search ends at the new record, exactly if the
      escapes of the name are plain and its entry is not shown otherwise than it was asked for. */
  lemma CreateThenFind(
    q: Request, display: Display, strict: bool, es: seq<Slot>, es': seq<Slot>, name: seq<byte>, u: seq<u16>,
    slots: seq<Slot>, off: nat)
    requires CreatedOk(q) && DisplayOk(q.opts, display) && CreatedIn(es, es', q, name, u, slots, off)
    requires forall x :: x in Recs(es, 0) ==> !RecAccepts(Lookup(q, display, strict), name, x)
    ensures Search(es', 0, Lookup(q, display, strict), name)
      == if EscapesPlain(q.cp, q.escape, strict, name) && !ShownOtherwise(q.opts, display, strict, u)
         then Hit(off, |slots|) else Miss
  {
    hide CreatedOk, EscapesPlain, ShownOtherwise, Tidy, Recs, RecAccepts, SlotsFor, HitIn, Lookup;
    RecordBears(q, display, strict, es, name, u, slots, off);
    SlotsSay(es, q, name, u, slots, off);
    FoundAfterCreate(es, es', NewRec(off, u, slots), Lookup(q, display, strict), name);
  }

  // ----- two names that are not found ----------------------------------------------------------------

  /** A name of one slot created in an empty directory. */
  lemma CreatedAlone(q: Request, name: seq<byte>, u: seq<u16>)
    requires PagesOk(q) && WritesAscii(q.nls) && OneSlot(q.opts, u) && Acceptable(u)
    requires NameText.Xlate(q.cp, q.escape, name, 0) == NameText.Units(u)
    ensures CreatedIn([], [OneEntry(q, u)], q, name, u, [OneEntry(q, u)], 0) && Recs([], 0) == {}
  {
    hide PagesOk, WritesAscii, OneSlot, Acceptable, NameText.Xlate, AliasIn, ShortFor;
    OneSlotMade([], q, name, u);
    var es := [OneEntry(q, u)];
    assert Tidy(es, 1) && Recs(es, 1) == {};
  }

  const FOO: seq<byte> := [0x46, 0x4F, 0x4F]
  const FOO_UNITS: seq<u16> := [0x46, 0x4F, 0x4F]

  /** `FOO` created with `shortname=lower` is not found by that name on a strict mount, and is found on
      any other. */
  lemma LoweredName(q: Request, display: Display, strict: bool)
    requires AsciiRequest(q) && q.opts.win95
    ensures CreatedIn([], [OneEntry(q, FOO_UNITS)], q, FOO, FOO_UNITS, [OneEntry(q, FOO_UNITS)], 0)
    ensures Search([OneEntry(q, FOO_UNITS)], 0, Lookup(q, display, strict), FOO)
      == if display == Lowered && strict then Miss else Hit(0, 1)
  {
    hide Lookup, Search, CreatedIn, CreatedOk, AsciiRequest;
    AsciiMeets(q);
    PagesSay(q);
    FooUnits(q);
    CreatedAlone(q, FOO, FOO_UNITS);
    CreateThenFind(q, display, strict, [], [OneEntry(q, FOO_UNITS)], FOO, FOO_UNITS, [OneEntry(q, FOO_UNITS)], 0);
  }

  /** Letter by letter. */
  lemma Spelled()
    ensures FOO == ['F' as int, 'O' as int, 'O' as int] == FOO_UNITS
    ensures ESCAPED == [':' as int, '0' as int, '0' as int, '4' as int, '1' as int]
  {
  }

  lemma FooUnits(q: Request)
    requires AsciiRequest(q) && q.opts.win95
    ensures NameText.Xlate(q.cp, q.escape, FOO, 0) == NameText.Units(FOO_UNITS)
    ensures Acceptable(FOO_UNITS) && OneSlot(q.opts, FOO_UNITS) && HasCapital(FOO_UNITS)
    ensures forall strict :: EscapesPlain(q.cp, q.escape, strict, FOO)
  {
    FooParts(q);
    FooShape(q);
  }

  lemma FooParts(q: Request)
    requires AsciiRequest(q)
    ensures NameText.Xlate(q.cp, q.escape, FOO, 0) == NameText.Units(FOO_UNITS)
    ensures forall strict :: EscapesPlain(q.cp, q.escape, strict, FOO)
  {
    var a, b, c := FOO[1..], FOO[2..], FOO[3..];
    assert a == [0x4F, 0x4F] && b == [0x4F] && c == [] && a[1..] == b && b[1..] == c;
    assert NameText.Xlate(q.cp, q.escape, c, 3) == NameText.Units([]);
    assert NameText.Xlate(q.cp, q.escape, b, 2) == NameText.Units([0x4F]);
    assert NameText.Xlate(q.cp, q.escape, a, 1) == NameText.Units([0x4F, 0x4F]);
    forall strict ensures EscapesPlain(q.cp, q.escape, strict, FOO) {
      assert EscapesPlain(q.cp, q.escape, strict, c);
      assert EscapesPlain(q.cp, q.escape, strict, b);
      assert EscapesPlain(q.cp, q.escape, strict, a);
    }
  }

  lemma FooShape(q: Request)
    requires q.opts.win95
    ensures Acceptable(FOO_UNITS) && OneSlot(q.opts, FOO_UNITS) && HasCapital(FOO_UNITS)
  {
    FirstDotIs(FOO_UNITS, 3);
    assert BasePart(FOO_UNITS) == FOO_UNITS && ExtPart(FOO_UNITS) == [];
    assert Capital(FOO_UNITS[0]);
  }

  /** An escape of a unit that has a character. */
  const ESCAPED: seq<byte> := [0x3A, 0x30, 0x30, 0x34, 0x31]

  /** `:0041` makes a file with the one entry of `A`, which is not found by that name, whatever the
      settings. */
  lemma EscapedName(q: Request, display: Display, strict: bool)
    requires AsciiRequest(q) && q.escape && DisplayOk(q.opts, display)
    ensures CreatedIn([], [OneEntry(q, [0x41])], q, ESCAPED, [0x41], [OneEntry(q, [0x41])], 0)
    ensures Search([OneEntry(q, [0x41])], 0, Lookup(q, display, strict), ESCAPED) == Miss
  {
    hide Lookup, Search, CreatedIn, CreatedOk, AsciiRequest;
    AsciiMeets(q);
    PagesSay(q);
    EscapedUnit(q, strict);
    CreatedAlone(q, ESCAPED, [0x41]);
    CreateThenFind(q, display, strict, [], [OneEntry(q, [0x41])], ESCAPED, [0x41], [OneEntry(q, [0x41])], 0);
  }

  lemma EscapedUnit(q: Request, strict: bool)
    requires AsciiRequest(q) && q.escape
    ensures NameText.Xlate(q.cp, true, ESCAPED, 0) == NameText.Units([0x41])
    ensures Acceptable([0x41]) && OneSlot(q.opts, [0x41]) && !EscapesPlain(q.cp, true, strict, ESCAPED)
  {
    assert NameText.HexAt(ESCAPED) == 0x41;
    assert ESCAPED[5..] == [] && NameText.Xlate(q.cp, true, [], 1) == NameText.Units([]);
    FirstDotIs([0x41], 1);
    assert BasePart([0x41]) == [0x41] && ExtPart([0x41]) == [];
    assert q.cp.uni2char(0x41) == [0x41];
  }
}
