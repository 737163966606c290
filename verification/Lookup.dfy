/** Finding a name on a VFAT mount: how the 8.3 name of an entry is shown (dir.c `fat_parse_short`),
    how names are compared (`fat_name_match`), and what a search then answers. */
module VfatLookup {
  import opened Arithmetic
  import opened EntryCodec
  import opened DirSlots
  import opened DirRecords
  import opened VfatDirectory
  import opened NameBytes
  import NameText
  import ShortNames

  const DOT_UNIT: u16 := 0x2E
  const MARK: u16 := 0x3F  // a question mark

  /** The mount option `shortname`, as far as it concerns showing names. */
  datatype Display = AsStored | Lowered | ByFlag

  /** The four settings there are: a name is flagged only where flags are shown. */
  predicate DisplayOk(opts: ShortNames.Options, display: Display) {
    opts.win95 || display == ByFlag
  }

  // ----- showing an 8.3 name ----------------------------------------------------------------

  /** `fat_short2uni` and `fat_short2lower_uni`: a unit, and how many bytes it takes. */
  function ShowUnit(nls: ShortNames.Nls, lower: bool, s: seq<byte>): (r: NameText.Decoded)
    requires |s| > 0
    ensures r.Char?
  {
    match nls.char2uni(s)
    case NoChar => NameText.Char(1, MARK)
    case Char(len, c) =>
      if lower && len <= 1 then
        match nls.char2uni([nls.lower(s[0])])
        case NoChar => NameText.Char(1, MARK)
        case Char(n, c') => NameText.Char(n, c')
      else NameText.Char(len, c)
  }

  /** How far the loop moves on. */
  function Advance(len: nat, room: nat): (n: nat)
    requires room > 0
    ensures 1 <= n <= room
  {
    if len <= 1 then 1 else Min(len, room)
  }

  /** The units of a part of the name, without the blanks at its end. */
  function PartUnits(nls: ShortNames.Nls, lower: bool, s: seq<byte>): (u: seq<u16>)
    ensures |u| <= |s|
    decreases |s|
  {
    if |s| == 0 || s[0] == 0 then []
    else
      var r := ShowUnit(nls, lower, s);
      var rest := PartUnits(nls, lower, s[Advance(r.len, |s|)..]);
      if r.len <= 1 && s[0] == SPACE && rest == [] then [] else [r.unit] + rest
  }

  /** Every character up to the end takes more than one byte. */
  predicate AllWide(nls: ShortNames.Nls, s: seq<byte>)
    decreases |s|
  {
    |s| == 0 || s[0] == 0 || match nls.char2uni(s)
    case NoChar => false
    case Char(len, _) => len > 1 && AllWide(nls, s[Min(len, |s|)..])
  }

  /** The case flag changes characters of one byte only. */
  lemma {:induction false} WideKeepsCase(nls: ShortNames.Nls, s: seq<byte>)
    requires AllWide(nls, s)
    ensures PartUnits(nls, true, s) == PartUnits(nls, false, s)
    decreases |s|
  {
    if |s| > 0 && s[0] != 0 {
      WideKeepsCase(nls, s[Min(nls.char2uni(s).len, |s|)..]);
    }
  }

  /** A byte that begins no character is shown as a question mark, and so, without `uni_xlate`, is a unit
      that has none. */
  lemma UnknownShown(
    nls: ShortNames.Nls, lower: bool, b: byte, rest: seq<byte>, cp: NameText.CodePage, c: u16)
    requires b != 0 && nls.char2uni([b] + rest).NoChar? && (b == SPACE ==> PartUnits(nls, lower, rest) != [])
    requires cp.uni2char(c) == []
    ensures PartUnits(nls, lower, [b] + rest) == ['?' as int] + PartUnits(nls, lower, rest)
    ensures NameText.Shown(cp, false, c) == ['?' as int]
  {
    assert ([b] + rest)[1..] == rest;
  }

  /** What is there after `i` bytes, `kept` units of it for good. */
  ghost predicate PartAt(nls: ShortNames.Nls, lower: bool, s: seq<byte>, i: nat, u: seq<u16>, kept: nat) {
    && i <= |s| && kept <= |u| <= i
    && var rest := PartUnits(nls, lower, s[i..]);
      PartUnits(nls, lower, s) == if rest == [] then u[..kept] else u + rest
  }

  lemma PartStep(nls: ShortNames.Nls, lower: bool, s: seq<byte>, i: nat)
    requires i < |s| && s[i] != 0
    ensures var r := ShowUnit(nls, lower, s[i..]);
      var rest := PartUnits(nls, lower, s[i + Advance(r.len, |s| - i)..]);
      PartUnits(nls, lower, s[i..]) ==
        if r.len <= 1 && s[i] == SPACE && rest == [] then [] else [r.unit] + rest
  {
    var n := Advance(ShowUnit(nls, lower, s[i..]).len, |s| - i);
    assert s[i..][n..] == s[i + n..];
  }

  /** One unit `x` more is there; `blank` is whether it is dropped at the end. */
  lemma OneMore(all: seq<u16>, u: seq<u16>, x: u16, rest: seq<u16>, kept: nat, blank: bool)
    requires kept <= |u|
    requires all == if blank && rest == [] then u[..kept] else u + ([x] + rest)
    ensures all == if rest == [] then (u + [x])[..if blank then kept else |u| + 1] else (u + [x]) + rest
  {
    assert u + ([x] + rest) == (u + [x]) + rest;
    assert (u + [x])[..kept] == u[..kept] && (u + [x])[..|u| + 1] == u + [x];
    assert [x] + [] == [x];
  }

  lemma PartOn(nls: ShortNames.Nls, lower: bool, s: seq<byte>, i: nat, u: seq<u16>, kept: nat)
    requires i < |s| && s[i] != 0 && PartAt(nls, lower, s, i, u, kept)
    ensures var r := ShowUnit(nls, lower, s[i..]);
      PartAt(nls, lower, s, i + Advance(r.len, |s| - i), u + [r.unit],
        if r.len <= 1 && s[i] == SPACE then kept else |u| + 1)
  {
    hide PartUnits, ShowUnit;
    var r := ShowUnit(nls, lower, s[i..]);
    var rest := PartUnits(nls, lower, s[i + Advance(r.len, |s| - i)..]);
    PartStep(nls, lower, s, i);
    OneMore(PartUnits(nls, lower, s), u, r.unit, rest, kept, r.len <= 1 && s[i] == SPACE);
  }

  /** The loop over the base, and that over the extension. */
  method ShowPart(nls: ShortNames.Nls, lower: bool, s: seq<byte>) returns (r: seq<u16>)
    ensures r == PartUnits(nls, lower, s)
  {
    hide PartUnits, ShowUnit, PartAt;
    var i: nat, u: seq<u16>, kept: nat := 0, [], 0;
    assert PartAt(nls, lower, s, 0, [], 0) by {
      PartStart(nls, lower, s);
    }
    while i < |s| && s[i] != 0
      invariant i <= |s| && kept <= |u| && PartAt(nls, lower, s, i, u, kept)
    {
      PartOn(nls, lower, s, i, u, kept);
      var c := ShowUnit(nls, lower, s[i..]);
      u := u + [c.unit];
      if c.len > 1 || s[i] != SPACE {
        kept := |u|;
      }
      i := i + Advance(c.len, |s| - i);
    }
    PartEnds(nls, lower, s, i, u, kept);
    r := u[..kept];
  }

  lemma PartStart(nls: ShortNames.Nls, lower: bool, s: seq<byte>)
    ensures PartAt(nls, lower, s, 0, [], 0)
  {
    assert s[0..] == s;
    var rest := PartUnits(nls, lower, s);
    assert [] + rest == rest;
  }

  lemma PartEnds(nls: ShortNames.Nls, lower: bool, s: seq<byte>, i: nat, u: seq<u16>, kept: nat)
    requires i <= |s| && (i == |s| || s[i] == 0) && PartAt(nls, lower, s, i, u, kept)
    ensures kept <= |u| && PartUnits(nls, lower, s) == u[..kept]
  {
    assert PartUnits(nls, lower, s[i..]) == [];
  }

  /** Is the part whose flag has weight `w` in the case byte shown in lower case? */
  function InLower(display: Display, s: Slot, w: nat): bool
    requires w > 0
  {
    display == Lowered || (display == ByFlag && s[12] / w % 2 == 1)
  }

  /** Whose bits are which. */
  lemma ShownCases(s: Slot)
    ensures InLower(ByFlag, s, CASE_LOWER_BASE) <==> s[12] / 8 % 2 == 1
    ensures InLower(ByFlag, s, CASE_LOWER_EXT) <==> s[12] / 16 % 2 == 1
  {
  }

  function ShortUnits(nls: ShortNames.Nls, display: Display, s: Slot): (u: seq<u16>)
    ensures |u| <= MSDOS_NAME + 1
  {
    var work := ShowFirst(ShortName(s));
    var base := PartUnits(nls, InLower(display, s, CASE_LOWER_BASE), work[..8]);
    var ext := PartUnits(nls, InLower(display, s, CASE_LOWER_EXT), work[8..]);
    if ext == [] then base else base + [ShowUnit(nls, false, [DOT_UNIT]).unit] + ext
  }

  /** The text of an entry's 8.3 name; empty if it has none. */
  function ShortText(q: Request, display: Display, s: Slot): seq<byte> {
    NameText.ShownAll(q.cp, q.escape, UpToZero(ShortUnits(q.nls, display, s)))
  }

  const FAT_MAX_SHORT_SIZE := (MSDOS_NAME + 1) * NLS_MAX_CHARSET_SIZE + 1

  /** `fat_parse_short` of a VFAT mount; its buffer is never too small. */
  method ParseShort(q: Request, display: Display, s: Slot) returns (text: seq<byte>)
    requires NameText.CodePageOk(q.cp)
    ensures text == ShortText(q, display, s)
  {
    var work := ShowFirst(ShortName(s));
    var units := ShowPart(q.nls, InLower(display, s, CASE_LOWER_BASE), work[..8]);
    var ext := ShowPart(q.nls, InLower(display, s, CASE_LOWER_EXT), work[8..]);
    if ext != [] {
      units := units + [ShowUnit(q.nls, false, [DOT_UNIT]).unit] + ext;
    }
    EndZero(units);
    var n;
    text, n := NameText.Uni16ToX8(q.cp, q.escape, units + [0], FAT_MAX_SHORT_SIZE);
    assert UpToZero(units)[..n] == UpToZero(units);
  }

  /** A zero at its end changes nothing. */
  lemma {:induction false} EndZero(u: seq<u16>)
    ensures UpToZero(u + [0]) == UpToZero(u)
    decreases |u|
  {
    if |u| > 0 && u[0] != 0 {
      assert (u + [0])[1..] == u[1..] + [0];
      EndZero(u[1..]);
    } else if |u| == 0 {
      assert u + [0] == [0];
    }
  }

  // ----- comparing names ---------------------------------------------------------------------

  /** `fat_name_match`: byte by byte on a mount with `check=strict`, else as `nls_strnicmp`. */
  predicate Same(cp: NameText.CodePage, strict: bool, a: seq<byte>, b: seq<byte>) {
    |a| == |b| && if strict then a == b else forall i :: 0 <= i < |a| ==> cp.lower(a[i]) == cp.lower(b[i])
  }

  /** What a search on the mount compares a name with. */
  function Lookup(q: Request, display: Display, strict: bool): Reader {
    Reader(s => ShortText(q, display, s), u => NameText.ShownAll(q.cp, q.escape, u), (a, b) => Same(q.cp, strict, a, b))
  }

  // ----- what is assumed of the code pages ------------------------------------------------------

  predicate Letter(b: byte) { 0x41 <= b <= 0x5A || 0x61 <= b <= 0x7A }

  /** Bytes below 0x7F are those of ASCII, and nothing but them is. */
  ghost predicate AsciiDisk(nls: ShortNames.Nls) {
    && (forall b: byte, rest :: 1 <= b < 0x7F ==> nls.char2uni([b] + rest) == NameText.Char(1, b))
    && (forall c: u16 :: |nls.uni2char(c)| == 1 && nls.uni2char(c)[0] < 0x7F ==> nls.uni2char(c)[0] == c)
    && (forall b: byte :: b < 0x7F ==> nls.upper(b) == Upper(b) && nls.lower(b) == Lower(b))
    && (forall b: byte :: b < 0x7F ==> (nls.alpha(b) <==> Letter(b)))
  }

  ghost predicate AsciiShown(cp: NameText.CodePage) {
    && (forall b: byte :: 1 <= b < 0x7F ==> cp.uni2char(b) == [b])
    && (forall b: byte :: b < 0x7F ==> cp.lower(b) == Lower(b))
  }

  /** A character read from a name is written as the bytes it was read from. */
  ghost predicate TwoSided(cp: NameText.CodePage) {
    forall s :: cp.char2uni(s).Char? ==>
      cp.char2uni(s).len <= |s| && cp.uni2char(cp.char2uni(s).unit) == s[..cp.char2uni(s).len]
  }

  /** No character on disk that has no zero byte is the zero unit. */
  ghost predicate NoZeroUnit(nls: ShortNames.Nls) {
    && (forall s :: |s| > 0 && s[0] != 0 && nls.char2uni(s).Char? ==> nls.char2uni(s).unit != 0)
    && (forall b: byte :: b != 0 ==> nls.lower(b) != 0)
  }

  ghost predicate PagesOk(q: Request) {
    && RequestOk(q) && AsciiDisk(q.nls) && NoZeroUnit(q.nls) && AsciiShown(q.cp) && TwoSided(q.cp)
  }

  function AsciiBytes(c: u16): seq<byte> { if 1 <= c < 0x7F then [c] else [] }

  function AsciiUnit(s: seq<byte>): NameText.Decoded {
    if |s| > 0 && 1 <= s[0] < 0x7F then NameText.Char(1, s[0]) else NameText.NoChar
  }

  lemma AsciiText(cp: NameText.CodePage)
    requires cp == NameText.CodePage(AsciiBytes, AsciiUnit, (b: byte) => Lower(b))
    ensures NameText.CodePageOk(cp) && AsciiShown(cp) && TwoSided(cp)
  {
    forall s | cp.char2uni(s).Char?
      ensures cp.char2uni(s).len <= |s| && cp.uni2char(cp.char2uni(s).unit) == s[..cp.char2uni(s).len]
    {
      assert s[..1] == [s[0]];
    }
  }

  lemma AsciiNames(nls: ShortNames.Nls)
    requires nls
      == ShortNames.Nls(AsciiBytes, AsciiUnit, (b: byte) => Upper(b), (b: byte) => Lower(b), (b: byte) => Letter(b))
    ensures ShortNames.NlsOk(nls) && AsciiDisk(nls) && NoZeroUnit(nls)
  {
  }

  /** The pages that have ASCII and nothing else meet all of this. */
  lemma AsciiPage(q: Request)
    requires q.cp == NameText.CodePage(AsciiBytes, AsciiUnit, (b: byte) => Lower(b))
    requires q.nls
      == ShortNames.Nls(AsciiBytes, AsciiUnit, (b: byte) => Upper(b), (b: byte) => Lower(b), (b: byte) => Letter(b))
    requires (q.opts.win95 || q.opts.winnt) && q.cluster < 0x1_0000_0000
    ensures PagesOk(q)
  {
    hide NameText.CodePageOk, AsciiShown, TwoSided, ShortNames.NlsOk, AsciiDisk, NoZeroUnit;
    AsciiText(q.cp);
    AsciiNames(q.nls);
  }

  // ----- a name that stands alone ----------------------------------------------------------------

  /** Units that are printable ASCII but no blank. */
  ghost predicate Plain(v: seq<u16>) { forall i :: 0 <= i < |v| ==> 0x20 < v[i] < 0x7F }

  function UpperAll(v: seq<u16>): (r: seq<byte>)
    requires Plain(v)
    ensures |r| == |v| && forall i :: 0 <= i < |v| ==> r[i] == Upper(v[i])
  {
    seq(|v|, i requires 0 <= i < |v| => Upper(v[i]))
  }

  /** What plain bytes are shown as. */
  function ShownBytes(lower: bool, s: seq<byte>): (r: seq<u16>)
    ensures |r| == |s| && forall i :: 0 <= i < |s| ==> r[i] == if lower then Lower(s[i]) else s[i]
  {
    seq(|s|, i requires 0 <= i < |s| => if lower then Lower(s[i]) else s[i])
  }

  lemma PlainChar(nls: ShortNames.Nls, w: u16)
    requires AsciiDisk(nls) && ShortNames.NlsOk(nls) && w > 0x20
    requires !ShortNames.SkipChar(w) && !ShortNames.ReplaceChar(w) && nls.uni2char(w) != []
    ensures var i := ShortNames.ShortInfo(nls, w, ShortNames.UNSEEN);
      && (i.upper || i.lower ==> w < 0x7F && ShortNames.ShortChar(nls, w) == [Upper(w)])
      && (i.upper ==> Upper(w) == w) && (i.lower ==> Lower(Upper(w)) == w)
  {
    assert w != 0;
  }

  lemma {:induction false} TranslatedUpper(nls: ShortNames.Nls, v: seq<u16>)
    requires Plain(v) && forall i :: 0 <= i < |v| ==> ShortNames.ShortChar(nls, v[i]) == [Upper(v[i])]
    ensures ShortNames.Translated(nls, v) == UpperAll(v)
    decreases |v|
  {
    hide ShortNames.ShortChar;
    if v != [] {
      var w := v[..|v| - 1];
      TranslatedUpper(nls, w);
      assert UpperAll(v) == UpperAll(w) + [Upper(v[|v| - 1])];
    }
  }

  /** The alias of a part in one case is the part in upper case. */
  lemma PartAlias(nls: ShortNames.Nls, v: seq<u16>)
    requires AsciiDisk(nls) && ShortNames.NlsOk(nls) && ShortNames.Faithful(nls, v)
    requires forall i :: 0 <= i < |v| ==> v[i] > 0x20
    requires ShortNames.AllUpper(nls, v) || ShortNames.AllLower(nls, v)
    ensures Plain(v) && ShortNames.Translated(nls, v) == UpperAll(v)
    ensures ShortNames.AllUpper(nls, v) ==> ShownBytes(false, UpperAll(v)) == v
    ensures ShortNames.AllLower(nls, v) ==> ShownBytes(true, UpperAll(v)) == v
  {
    hide AsciiDisk, ShortNames.NlsOk, ShortNames.ShortChar, ShortNames.ShortInfo, ShortNames.Translated;
    forall i | 0 <= i < |v|
      ensures v[i] < 0x7F && ShortNames.ShortChar(nls, v[i]) == [Upper(v[i])]
      ensures ShortNames.AllUpper(nls, v) ==> Upper(v[i]) == v[i]
      ensures ShortNames.AllLower(nls, v) ==> Lower(Upper(v[i])) == v[i]
    {
      PlainChar(nls, v[i]);
    }
    TranslatedUpper(nls, v);
  }

  function Blanks(k: nat): (r: seq<byte>)
    ensures |r| == k && forall i :: 0 <= i < k ==> r[i] == SPACE
  {
    seq(k, _ => SPACE)
  }

  lemma {:induction false} BlanksShown(nls: ShortNames.Nls, lower: bool, k: nat)
    requires AsciiDisk(nls)
    ensures PartUnits(nls, lower, Blanks(k)) == []
    decreases k
  {
    if k > 0 {
      assert Blanks(k) == [SPACE] + Blanks(k - 1);
      assert nls.char2uni([SPACE] + Blanks(k - 1)) == NameText.Char(1, 0x20);
      assert nls.char2uni([SPACE] + []) == NameText.Char(1, 0x20) && [SPACE] + [] == [SPACE];
      assert Blanks(k)[1..] == Blanks(k - 1);
      BlanksShown(nls, lower, k - 1);
    }
  }

  lemma PlainHead(nls: ShortNames.Nls, lower: bool, b: byte, rest: seq<byte>)
    requires AsciiDisk(nls) && SPACE < b < 0x7F
    ensures PartUnits(nls, lower, [b] + rest) == [if lower then Lower(b) else b] + PartUnits(nls, lower, rest)
  {
    assert ([b] + rest)[1..] == rest;
    assert nls.char2uni([b] + rest) == NameText.Char(1, b);
    var l := nls.lower(b);
    assert nls.char2uni([l] + []) == NameText.Char(1, l) && [l] + [] == [l];
  }

  /** Plain bytes with blanks behind are shown as themselves, or in lower case. */
  lemma {:induction false} PlainShown(nls: ShortNames.Nls, lower: bool, s: seq<byte>, k: nat)
    requires AsciiDisk(nls) && forall i :: 0 <= i < |s| ==> SPACE < s[i] < 0x7F
    ensures PartUnits(nls, lower, s + Blanks(k)) == ShownBytes(lower, s)
    decreases |s|
  {
    hide AsciiDisk, PartUnits;
    if s == [] {
      assert s + Blanks(k) == Blanks(k) && ShownBytes(lower, s) == [];
      BlanksShown(nls, lower, k);
    } else {
      var b, rest := s[0], s[1..] + Blanks(k);
      assert s + Blanks(k) == [b] + rest;
      PlainHead(nls, lower, b, rest);
      PlainShown(nls, lower, s[1..], k);
      assert ShownBytes(lower, s) == [if lower then Lower(b) else b] + ShownBytes(lower, s[1..]);
    }
  }

  /** A part of an entry that stands alone is shown as it was asked for, or all of it in lower case. */
  lemma PartBack(nls: ShortNames.Nls, lower: bool, v: seq<u16>, n: nat)
    requires AsciiDisk(nls) && ShortNames.NlsOk(nls) && ShortNames.PartFits(nls, v, n)
    requires forall i :: 0 <= i < |v| ==> v[i] > 0x20
    requires ShortNames.AllUpper(nls, v) || ShortNames.AllLower(nls, v)
    ensures Plain(v) && |v| <= n && ShortNames.Translated(nls, v) == UpperAll(v)
    ensures PartUnits(nls, lower, Pad(UpperAll(v), n)) == ShownBytes(lower, UpperAll(v))
    ensures !lower && ShortNames.AllUpper(nls, v) ==> PartUnits(nls, lower, Pad(UpperAll(v), n)) == v
    ensures lower && ShortNames.AllLower(nls, v) ==> PartUnits(nls, lower, Pad(UpperAll(v), n)) == v
  {
    hide AsciiDisk, ShortNames.AllUpper, ShortNames.AllLower, PartUnits, ShownBytes, ShortNames.Translated;
    PartAlias(nls, v);
    PlainShown(nls, lower, UpperAll(v), n - |v|);
    assert Pad(UpperAll(v), n) == UpperAll(v) + Blanks(n - |v|);
  }

  /** All units in lower case. */
  function LowerAll(u: seq<u16>): (r: seq<u16>)
    ensures |r| == |u| && forall i :: 0 <= i < |u| ==> r[i] == if u[i] < 0x7F then Lower(u[i]) else u[i]
  {
    seq(|u|, i requires 0 <= i < |u| => if u[i] < 0x7F then Lower(u[i]) else u[i])
  }

  /** The parts of a name put together again. */
  lemma PartsTogether(u: seq<u16>, sz: nat, ext: nat)
    requires ShortNames.Divides(u, sz, ext)
    ensures sz <= |u| && ext <= |u|
    ensures if u[ext..] == [] then u[..sz] == u else u[..sz] + [DOT_UNIT] + u[ext..] == u
  {
  }

  /** The stored bytes of both parts. */
  lemma JoinedParts(base: seq<byte>, ext: seq<byte>)
    requires 1 <= |base| <= 8 && |ext| <= 3 && base[0] != DELETED_FLAG && base[0] != 0x05
    ensures var r := ShowFirst(ShortNames.Joined(StoreFirst(base), ext));
            r[..8] == Pad(base, 8) && r[8..] == Pad(ext, 3)
  {
    assert ShortNames.Joined(StoreFirst(base), ext)[0] == base[0];
  }

  /** How one part of an entry that stands alone is shown. */
  lemma PartShown(q: Request, display: Display, v: seq<u16>, n: nat, lower: bool)
    requires PagesOk(q) && ShortNames.PartFits(q.nls, v, n) && DisplayOk(q.opts, display)
    requires forall i :: 0 <= i < |v| ==> v[i] > 0x20
    requires ShortNames.AllUpper(q.nls, v) || (!q.opts.win95 && ShortNames.AllLower(q.nls, v))
    requires lower == (display == Lowered || (display == ByFlag && ShortNames.LowerPart(q.nls, q.opts, v)))
    ensures Plain(v) && |v| <= n && ShortNames.Translated(q.nls, v) == UpperAll(v)
    ensures PartUnits(q.nls, lower, Pad(UpperAll(v), n)) == if display == Lowered then LowerAll(v) else v
  {
    hide PartUnits, AsciiDisk, ShortNames.NlsOk, ShortNames.PartFits, ShortNames.AllUpper, ShortNames.AllLower;
    PartBack(q.nls, lower, v, n);
    if display == Lowered {
      PartAliasUpper(q.nls, v);
      assert ShownBytes(true, UpperAll(v)) == LowerAll(v);
    }
  }

  lemma PartAliasUpper(nls: ShortNames.Nls, v: seq<u16>)
    requires Plain(v)
    ensures forall i :: 0 <= i < |v| ==> Lower(UpperAll(v)[i]) == Lower(v[i])
  {
  }

  /** The flags of the entry say which parts are in lower case. */
  lemma FlagsShown(q: Request, display: Display, base: seq<u16>, ext: seq<u16>, s: Slot)
    requires s[12] == CaseFlags(q, base, ext)
    ensures InLower(display, s, CASE_LOWER_BASE)
      == (display == Lowered || (display == ByFlag && ShortNames.LowerPart(q.nls, q.opts, base)))
    ensures InLower(display, s, CASE_LOWER_EXT)
      == (display == Lowered || (display == ByFlag && ShortNames.LowerPart(q.nls, q.opts, ext)))
  {
    hide ShortNames.LowerPart;
  }

  lemma CaseByte(name: seq<byte>, isDir: bool, lcase: byte, t: Times, cluster: nat)
    requires |name| == MSDOS_NAME && cluster < 0x1_0000_0000
    ensures ShortEntry(name, isDir, lcase, t, cluster)[12] == lcase
  {
  }

  lemma AboveBlank(u: seq<u16>)
    requires Acceptable(u)
    ensures forall i :: 0 <= i < |u| && !ShortNames.SkipChar(u[i]) ==> u[i] > 0x20
    ensures 0 !in u && NameText.COLON !in u
  {
  }

  lemma FlagsOf(q: Request, u: seq<u16>, sz: nat, ext: nat, s: Slot)
    requires ShortBy(q, u, sz, ext, 1, s)
    ensures s[12] == CaseFlags(q, u[..sz], u[ext..])
  {
    CaseByte(ShortName(s), q.isDir, CaseFlags(q, u[..sz], u[ext..]), q.times, q.cluster);
  }

  lemma EmptyBase(ext: seq<byte>)
    requires |ext| <= 3
    ensures ShortNames.Joined([], ext)[0] == SPACE
  {
  }

  /** Its eleven bytes are base and extension in upper case. */
  lemma AloneBytes(q: Request, u: seq<u16>, sz: nat, ext: nat, s: Slot)
    requires ShortBy(q, u, sz, ext, 1, s) && Plain(u[..sz]) && Plain(u[ext..])
    requires ShortNames.Translated(q.nls, u[..sz]) == UpperAll(u[..sz])
    requires ShortNames.Translated(q.nls, u[ext..]) == UpperAll(u[ext..])
    requires ShortNames.Storable(ShortName(s))
    ensures |u[..sz]| <= 8 && |u[ext..]| <= 3
    ensures ShowFirst(ShortName(s))[..8] == Pad(UpperAll(u[..sz]), 8)
    ensures ShowFirst(ShortName(s))[8..] == Pad(UpperAll(u[ext..]), 3)
  {
    var base, e := UpperAll(u[..sz]), UpperAll(u[ext..]);
    assert ShortName(s) == ShortNames.Joined(StoreFirst(base), e);
    EmptyBase(e);
    assert base != [] by {
      assert StoreFirst([]) == [];
    }
    assert base[0] == Upper(u[..sz][0]);
    JoinedParts(base, e);
  }

  lemma LowerParts(b: seq<u16>, e: seq<u16>)
    ensures LowerAll(b + [DOT_UNIT] + e) == LowerAll(b) + [DOT_UNIT] + LowerAll(e)
    ensures LowerAll(e) == [] <==> e == []
  {
  }

  lemma DotShown(q: Request)
    requires PagesOk(q)
    ensures ShowUnit(q.nls, false, [DOT_UNIT]).unit == DOT_UNIT
  {
    assert q.nls.char2uni([DOT_UNIT] + []) == NameText.Char(1, DOT_UNIT) && [DOT_UNIT] + [] == [DOT_UNIT];
  }

  /** How both parts of an entry that stands alone are shown. */
  lemma AloneParts(q: Request, display: Display, u: seq<u16>, sz: nat, ext: nat, s: Slot)
    requires PagesOk(q) && DisplayOk(q.opts, display) && Acceptable(u)
    requires ShortNames.Divides(u, sz, ext) && ShortBy(q, u, sz, ext, 1, s) && ShortNames.Storable(ShortName(s))
    ensures var work := ShowFirst(ShortName(s));
      && PartUnits(q.nls, InLower(display, s, CASE_LOWER_BASE), work[..8])
        == (if display == Lowered then LowerAll(u[..sz]) else u[..sz])
      && PartUnits(q.nls, InLower(display, s, CASE_LOWER_EXT), work[8..])
        == (if display == Lowered then LowerAll(u[ext..]) else u[ext..])
    ensures Plain(u[..sz]) && Plain(u[ext..])
  {
    hide AsciiDisk, AsciiShown, TwoSided, PartUnits, InLower, ShortNames.Divides, ShortNames.Translated, LowerAll,
      ShortNames.AllUpper, ShortNames.AllLower, ShortNames.NlsOk, ShortNames.Storable, ShortEntry, CaseFlags,
      Acceptable, ShortNames.LowerPart, StoreFirst, ShowFirst, Plain, UpperAll, ShortNames.ShortForm,
      ShortNames.SkipChar, Pad;
    var b, e := u[..sz], u[ext..];
    FaithfulPlain(q.nls, u, b);
    FaithfulPlain(q.nls, u, e);
    FlagsOf(q, u, sz, ext, s);
    FlagsShown(q, display, b, e, s);
    PartShown(q, display, b, 8, InLower(display, s, CASE_LOWER_BASE));
    PartShown(q, display, e, 3, InLower(display, s, CASE_LOWER_EXT));
    AloneBytes(q, u, sz, ext, s);
  }

  lemma FaithfulPlain(nls: ShortNames.Nls, u: seq<u16>, v: seq<u16>)
    requires Acceptable(u) && ShortNames.Faithful(nls, v) && forall i :: 0 <= i < |v| ==> v[i] in u
    ensures forall i :: 0 <= i < |v| ==> v[i] > 0x20
  {
    AboveBlank(u);
  }

  /** An entry that stands alone is shown as the name it was made for, or that in lower case. */
  lemma AloneShown(q: Request, display: Display, u: seq<u16>, sz: nat, ext: nat, s: Slot)
    requires PagesOk(q) && DisplayOk(q.opts, display) && Acceptable(u)
    requires ShortNames.Divides(u, sz, ext) && ShortBy(q, u, sz, ext, 1, s)
    requires ShortNames.Storable(ShortName(s))
    ensures ShortUnits(q.nls, display, s) == if display == Lowered then LowerAll(u) else u
    ensures forall i :: 0 <= i < |u| ==> 0x20 < u[i] < 0x7F
  {
    hide PagesOk, PartUnits, InLower, ShortNames.Divides, LowerAll, ShortBy, Acceptable, ShowFirst, AsciiDisk;
    PartsTogether(u, sz, ext);
    var b, e := u[..sz], u[ext..];
    AloneParts(q, display, u, sz, ext, s);
    LowerParts(b, e);
    DotShown(q);
  }

  // ----- the texts of what is created ------------------------------------------------------------------

  function PlainBytes(v: seq<u16>): (r: seq<byte>)
    requires Plain(v)
    ensures |r| == |v| && forall i :: 0 <= i < |v| ==> r[i] == v[i]
  {
    seq(|v|, i requires 0 <= i < |v| => v[i])
  }

  lemma {:induction false} PlainText(cp: NameText.CodePage, escape: bool, v: seq<u16>)
    requires AsciiShown(cp) && Plain(v)
    ensures NameText.ShownAll(cp, escape, v) == PlainBytes(v)
    decreases |v|
  {
    if v != [] {
      var b: byte := v[0];
      assert cp.uni2char(b) == [b];
      PlainText(cp, escape, v[1..]);
      assert PlainBytes(v) == [b] + PlainBytes(v[1..]);
    } else {
      assert PlainBytes(v) == [];
    }
  }

  lemma {:induction false} NoZeroIn(u: seq<u16>)
    requires 0 !in u
    ensures UpToZero(u) == u
    decreases |u|
  {
    if u != [] {
      NoZeroIn(u[1..]);
    }
  }

  lemma PlainUnits(q: Request, display: Display, s: Slot)
    requires PagesOk(q) && Plain(ShortUnits(q.nls, display, s))
    ensures ShortText(q, display, s) == PlainBytes(ShortUnits(q.nls, display, s))
  {
    hide ShortUnits;
    NoZeroIn(ShortUnits(q.nls, display, s));
    PlainText(q.cp, q.escape, ShortUnits(q.nls, display, s));
  }

  lemma LowerPlain(u: seq<u16>)
    requires forall i :: 0 <= i < |u| ==> 0x20 < u[i] < 0x7F
    ensures Plain(u) && Plain(LowerAll(u))
  {
  }

  /** The text shown for an entry that stands alone. */
  lemma AloneText(q: Request, display: Display, u: seq<u16>, s: Slot)
    requires PagesOk(q) && DisplayOk(q.opts, display) && Acceptable(u)
    requires ShortFor(q, u, 1, s) && ShortNames.Storable(ShortName(s))
    ensures Plain(u) && Plain(LowerAll(u))
    ensures ShortText(q, display, s) == if display == Lowered then PlainBytes(LowerAll(u)) else PlainBytes(u)
  {
    hide PagesOk, ShortUnits, ShortBy, Acceptable, ShortNames.Divides, ShortText, PlainBytes, LowerAll, Plain;
    var sz: nat, ext: nat :| ShortNames.Divides(u, sz, ext) && ShortBy(q, u, sz, ext, 1, s);
    AloneShown(q, display, u, sz, ext, s);
    LowerPlain(u);
    PlainUnits(q, display, s);
  }

  /** Some text is shown for every entry of ours. */
  lemma SomeText(q: Request, display: Display, s: Slot)
    requires PagesOk(q) && ShortNames.Storable(ShortName(s))
    ensures ShortText(q, display, s) != []
  {
    hide PartUnits, ShowUnit, InLower, NoZeroUnit, ShortNames.Storable;
    FirstByte(ShortName(s));
    var work := ShowFirst(ShortName(s));
    assert work[..8][0] == work[0];
    var lower := InLower(display, s, CASE_LOWER_BASE);
    UnitNotZero(q.nls, lower, work[..8]);
    FirstUnit(q.nls, lower, work[..8]);
    var u := ShortUnits(q.nls, display, s);
    assert UpToZero(u)[0] == u[0];
    assert NameText.Shown(q.cp, q.escape, u[0]) != [];
  }

  lemma FirstByte(name: seq<byte>)
    requires ShortNames.Storable(name)
    ensures |name| == MSDOS_NAME && ShowFirst(name)[0] != 0 && ShowFirst(name)[0] != SPACE
  {
  }

  lemma FirstUnit(nls: ShortNames.Nls, lower: bool, s: seq<byte>)
    requires |s| > 0 && s[0] != 0 && s[0] != SPACE
    ensures PartUnits(nls, lower, s) != [] && PartUnits(nls, lower, s)[0] == ShowUnit(nls, lower, s).unit
  {
  }

  lemma UnitNotZero(nls: ShortNames.Nls, lower: bool, s: seq<byte>)
    requires NoZeroUnit(nls) && |s| > 0 && s[0] != 0
    ensures ShowUnit(nls, lower, s).unit != 0
  {
    assert nls.lower(s[0]) != 0 && [nls.lower(s[0])][0] == nls.lower(s[0]);
  }

  /** What is known of the slots of a name and of the record they make. */
  lemma SlotsShow(es: seq<Slot>, q: Request, name: seq<byte>, u: seq<u16>, slots: seq<Slot>, off: nat)
    requires SlotsFor(es, q, name, u, slots)
    ensures slots != [] && Acceptable(u) && NameText.Xlate(q.cp, q.escape, name, 0) == NameText.Units(u)
    ensures var s := slots[|slots| - 1]; ShortFor(q, u, |slots|, s) && ShortNames.Storable(ShortName(s))
    ensures var r := NewRec(off, u, slots);
      r.short == slots[|slots| - 1] && r.pieces == |slots| - 1 && (r.pieces > 0 ==> r.units == u)
  {
  }

  lemma LookupIs(q: Request, display: Display, strict: bool, name: seq<byte>, r: Rec)
    ensures RecAccepts(Lookup(q, display, strict), name, r)
      <==> (ShortText(q, display, r.short) != []
        && (Same(q.cp, strict, name, ShortText(q, display, r.short))
          || (r.pieces > 0 && Same(q.cp, strict, name, NameText.ShownAll(q.cp, q.escape, r.units)))))
    ensures Same(q.cp, strict, name, name)
  {
  }

  lemma PlainName(q: Request, u: seq<u16>)
    requires PagesOk(q) && Plain(u)
    ensures AsciiShown(q.cp) && NameText.ShownAll(q.cp, q.escape, u) == PlainBytes(u)
  {
    PlainText(q.cp, q.escape, u);
  }

  // ----- names that differ ------------------------------------------------------------------------

  function FoldedByte(cp: NameText.CodePage, b: byte): byte {
    if 0x41 <= b <= 0x5A then b + 0x20 else if b < 0x7F then b else cp.lower(b)
  }

  /** A text with its letters made lower case, those of ASCII and those of the code page. */
  function Folded(cp: NameText.CodePage, s: seq<byte>): (r: seq<byte>)
    ensures |r| == |s| && forall i :: 0 <= i < |s| ==> r[i] == FoldedByte(cp, s[i])
  {
    seq(|s|, i requires 0 <= i < |s| => FoldedByte(cp, s[i]))
  }

  /** The same text, or on a mount without `check=strict` the same but for case. */
  predicate Alike(cp: NameText.CodePage, strict: bool, a: seq<byte>, b: seq<byte>) {
    if strict then a == b else Folded(cp, a) == Folded(cp, b)
  }

  lemma SameIsAlike(cp: NameText.CodePage, strict: bool, a: seq<byte>, b: seq<byte>)
    requires AsciiShown(cp)
    ensures Same(cp, strict, a, b) <==> Alike(cp, strict, a, b)
  {
    var x, y := Folded(cp, a), Folded(cp, b);
    assert forall i :: 0 <= i < |a| ==> x[i] == cp.lower(a[i]);
    assert forall i :: 0 <= i < |b| ==> y[i] == cp.lower(b[i]);
    if !strict && x == y {
      forall i | 0 <= i < |a| ensures cp.lower(a[i]) == cp.lower(b[i]) {
        assert x[i] == y[i];
      }
    }
  }

  /** Does the record bear the name, as its 8.3 text or as its long text? */
  predicate Bears(q: Request, display: Display, strict: bool, name: seq<byte>, r: Rec) {
    && ShortText(q, display, r.short) != []
    && (Alike(q.cp, strict, name, ShortText(q, display, r.short))
        || (r.pieces > 0 && Alike(q.cp, strict, name, NameText.ShownAll(q.cp, q.escape, r.units))))
  }

  lemma BearsIs(q: Request, display: Display, strict: bool, name: seq<byte>, r: Rec)
    requires AsciiShown(q.cp)
    ensures RecAccepts(Lookup(q, display, strict), name, r) <==> Bears(q, display, strict, name, r)
  {
    hide ShortText, Alike, Same, NameText.ShownAll;
    LookupIs(q, display, strict, name, r);
    SameIsAlike(q.cp, strict, name, ShortText(q, display, r.short));
    SameIsAlike(q.cp, strict, name, NameText.ShownAll(q.cp, q.escape, r.units));
  }

  ghost predicate FirstBearer(q: Request, display: Display, strict: bool, es: seq<Slot>, name: seq<byte>, r: Rec)
    requires Tidy(es, 0)
  {
    && r in Recs(es, 0) && Bears(q, display, strict, name, r)
    && forall x :: x in Recs(es, 0) && x != r && Bears(q, display, strict, name, x) ==> r.off < x.off
  }

  /** On a VFAT mount a search of a tidy directory ends at the first record that bears the name, and
      misses exactly if the name differs, by more than case on a mount without `check=strict`,
      from both texts of every record. */
  lemma SearchAnswers(q: Request, display: Display, strict: bool, es: seq<Slot>, name: seq<byte>)
    requires AsciiShown(q.cp) && Tidy(es, 0)
    ensures Search(es, 0, Lookup(q, display, strict), name) == Miss
      <==> forall r :: r in Recs(es, 0) ==> !Bears(q, display, strict, name, r)
    ensures forall r :: (FirstBearer(q, display, strict, es, name, r)
      ==> Search(es, 0, Lookup(q, display, strict), name) == Hit(r.off, r.pieces + 1))
  {
    hide Recs, Tidy, Bears, Lookup, Search, RecAccepts;
    var rd := Lookup(q, display, strict);
    SearchFinds(es, 0, rd, name);
    forall r ensures RecAccepts(rd, name, r) <==> Bears(q, display, strict, name, r) {
      BearsIs(q, display, strict, name, r);
    }
  }

  /** Making or removing a record that does not bear a name leaves the search for it as it was. */
  lemma OthersAnswered(
    q: Request, display: Display, strict: bool, es: seq<Slot>, es': seq<Slot>, r: Rec, other: seq<byte>)
    requires AsciiShown(q.cp) && Tidy(es, 0) && Tidy(es', 0) && !Bears(q, display, strict, other, r)
    requires Recs(es', 0) == Recs(es, 0) + {r} || Recs(es', 0) == Recs(es, 0) - {r}
    ensures Search(es', 0, Lookup(q, display, strict), other) == Search(es, 0, Lookup(q, display, strict), other)
  {
    hide Recs, Tidy, Bears, Lookup, Search, RecAccepts;
    BearsIs(q, display, strict, other, r);
    OthersUnmoved(es, es', r, Lookup(q, display, strict), other);
  }

  /** A create leaves the search for every other name as it was: one that differs by more than case
      from the text of the name made and, if that has long slots, from its alias. */
  lemma CreateLeavesOthers(
    q: Request, display: Display, strict: bool, es: seq<Slot>, es': seq<Slot>, name: seq<byte>, u: seq<u16>,
    slots: seq<Slot>, off: nat, other: seq<byte>)
    requires PagesOk(q) && DisplayOk(q.opts, display) && CreatedIn(es, es', q, name, u, slots, off)
    requires Folded(q.cp, other) != Folded(q.cp, NameText.ShownAll(q.cp, q.escape, u))
    requires |slots| > 1 ==> Folded(q.cp, other) != Folded(q.cp, ShortText(q, display, slots[|slots| - 1]))
    ensures Search(es', 0, Lookup(q, display, strict), other) == Search(es, 0, Lookup(q, display, strict), other)
  {
    hide Recs, Tidy, Lookup, Search, SlotsFor, NewRec, ShortText, NameText.ShownAll, Folded, PagesOk, ShortFor;
    SlotsShow(es, q, name, u, slots, off);
    PagesShow(q);
    if |slots| == 1 {
      AloneFolded(q, display, u, slots[0]);
    }
    OthersAnswered(q, display, strict, es, es', NewRec(off, u, slots), other);
  }

  lemma PagesShow(q: Request)
    requires PagesOk(q)
    ensures AsciiShown(q.cp)
  {
  }

  /** The 8.3 text of an entry that stands alone is the text of its name, but for case. */
  lemma AloneFolded(q: Request, display: Display, u: seq<u16>, s: Slot)
    requires PagesOk(q) && DisplayOk(q.opts, display) && Acceptable(u)
    requires ShortFor(q, u, 1, s) && ShortNames.Storable(ShortName(s))
    ensures Folded(q.cp, ShortText(q, display, s)) == Folded(q.cp, NameText.ShownAll(q.cp, q.escape, u))
  {
    hide PagesOk, ShortText, NameText.ShownAll, Acceptable, ShortFor, ShortNames.Storable;
    AloneText(q, display, u, s);
    PlainName(q, u);
  }

  /** A name with long slots is found by its alias as well. */
  lemma FoundByAlias(
    q: Request, display: Display, strict: bool, es: seq<Slot>, es': seq<Slot>, name: seq<byte>, u: seq<u16>,
    slots: seq<Slot>, off: nat)
    requires PagesOk(q) && CreatedIn(es, es', q, name, u, slots, off)
    requires var alias := ShortText(q, display, slots[|slots| - 1]);
      forall r :: r in Recs(es, 0) ==> !Bears(q, display, strict, alias, r)
    ensures Search(es', 0, Lookup(q, display, strict), ShortText(q, display, slots[|slots| - 1])) == Hit(off, |slots|)
  {
    hide PagesOk, Tidy, Recs, RecAccepts, SlotsFor, Lookup, Bears, ShortText, Search;
    var alias, r := ShortText(q, display, slots[|slots| - 1]), NewRec(off, u, slots);
    SlotsShow(es, q, name, u, slots, off);
    PagesShow(q);
    SomeText(q, display, r.short);
    LookupIs(q, display, strict, alias, r);
    forall x | x in Recs(es, 0) ensures !RecAccepts(Lookup(q, display, strict), alias, x) {
      BearsIs(q, display, strict, alias, x);
    }
    FoundAfterCreate(es, es', r, Lookup(q, display, strict), alias);
  }
}
