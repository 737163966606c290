/** The characters of stored names: an alias, and a name formatted for an MS-DOS mount, have only
    those an 8.3 name may have. */
module LegalNames {
  import opened Arithmetic
  import opened EntryCodec
  import opened DirSlots
  import opened VfatDirectory
  import opened VfatLookup
  import opened NameBytes
  import MsdosNames
  import NameText
  import ShortNames

  // ----- tails ------------------------------------------------------------------------------------

  /** The tail of a number: a tilde and its digit, with the rest of the name as it was. */
  lemma NumberShown(name: seq<byte>, baselen: nat, i: nat)
    requires |name| == MSDOS_NAME && baselen <= 6 && 1 <= i <= 9
    ensures var r := ShortNames.WithNumber(name, baselen, i);
      && r[baselen] as char == '~' && r[baselen + 1] as int == '0' as int + i
      && r[..baselen] == name[..baselen] && r[baselen + 2..] == name[baselen + 2..]
  {
  }

  lemma DigitRead(d: nat)
    requires d < 16
    ensures NameText.HexValue(ShortNames.HexDigit(d)) == d
  {
  }

  /** A hexadecimal tail read as an escape is the number it was made of. */
  lemma TailReads(t: nat, rest: seq<byte>)
    requires t < ShortNames.TAILS
    ensures NameText.HexAt([NameText.COLON] + ShortNames.Hex4(t) + rest) == t
  {
    hide ShortNames.HexDigit, NameText.HexValue;
    var s := [NameText.COLON] + ShortNames.Hex4(t) + rest;
    DigitRead(t / 4096);
    DigitRead(t / 256 % 16);
    DigitRead(t / 16 % 16);
    DigitRead(t % 16);
    assert forall k :: 0 <= k < 4 ==> s[k + 1] == ShortNames.Hex4(t)[k];
    HexDigits(t);
  }

  /** The digits of an escape, of either case, and nothing else. */
  lemma DigitValues(b: byte)
    ensures NameText.HexValue(b) == if '0' <= b as char <= '9' then b - '0' as int
      else if 'a' <= b as char <= 'f' then 10 + (b - 'a' as int)
      else if 'A' <= b as char <= 'F' then 10 + (b - 'A' as int) else 16
  {
  }

  // ----- bytes of names ----------------------------------------------------------------------------

  predicate Only(ok: byte -> bool, s: seq<byte>) { forall i :: 0 <= i < |s| ==> ok(s[i]) }

  /** Eleven such bytes, filled up with blanks; the first may stand for 0xE5. */
  predicate NameOnly(ok: byte -> bool, name: seq<byte>) {
    && |name| == MSDOS_NAME
    && forall i :: 0 <= i < MSDOS_NAME ==> ok(name[i]) || name[i] == SPACE || (i == 0 && name[i] == 0x05)
  }

  // ----- aliases ------------------------------------------------------------------------------

  /** Characters of several bytes have none of ASCII, and no capital letter comes down to ASCII. */
  ghost predicate HighBytes(nls: ShortNames.Nls) {
    && (forall c: u16 :: |nls.uni2char(c)| > 1 ==> forall b :: b in nls.uni2char(c) ==> b >= 0x7F)
    && (forall b: byte :: b >= 0x7F ==> nls.upper(b) >= 0x7F)
  }

  /** VFAT forbids the characters an MS-DOS mount does, and `/`; of the others those that may not
      stand in an alias are just the ones skipped or replaced. */
  lemma CharacterSets(w: u16, nocase: bool, dotsOK: bool)
    requires w < 0x7F
    ensures BadChar(w)
      <==> w == 0x2F || !MsdosNames.CharOk(MsdosNames.Options(MsdosNames.Normal, nocase, dotsOK), w)
    ensures !BadChar(w) ==> (ShortNames.SkipChar(w) || ShortNames.ReplaceChar(w) <==> !Legal(Upper(w)))
  {
  }

  /** What an ASCII character becomes in an alias: its capital form if that may stand there; else
      dots and blanks are dropped and an underscore stands for the rest. */
  lemma AliasChar(nls: ShortNames.Nls, w: u16)
    requires AsciiDisk(nls) && 0 < w < 0x7F && !BadChar(w) && nls.uni2char(w) == [w]
    ensures ShortNames.ShortChar(nls, w)
      == if Legal(Upper(w)) then [Upper(w)] else if w == 0x2E || w == SPACE then [] else [0x5F]
  {
    CharacterSets(w, false, false);
  }

  /** The page reads back what it writes. */
  ghost predicate ReadsBack(nls: ShortNames.Nls) {
    forall c: u16, rest :: nls.uni2char(c) != [] ==> CharBack(nls, c, rest)
  }

  ghost predicate CharBack(nls: ShortNames.Nls, c: u16, rest: seq<byte>) {
    nls.char2uni(nls.uni2char(c) + rest) == NameText.Char(|nls.uni2char(c)|, c)
  }

  /** Other characters: an underscore stands for one the page does not have; those that the page writes
      as bytes with the same capital have the same alias, and one that is its own capital is kept;
      one of several bytes is kept, whatever case is shown. */
  lemma AliasOther(nls: ShortNames.Nls, w: u16, w': u16)
    requires !ShortNames.SkipChar(w) && !ShortNames.ReplaceChar(w)
    requires !ShortNames.SkipChar(w') && !ShortNames.ReplaceChar(w')
    ensures nls.uni2char(w) == [] ==> ShortNames.ShortChar(nls, w) == ['_' as int]
    ensures |nls.uni2char(w)| == |nls.uni2char(w')| == 1
      && nls.upper(nls.uni2char(w)[0]) == nls.upper(nls.uni2char(w')[0])
      ==> ShortNames.ShortChar(nls, w) == ShortNames.ShortChar(nls, w')
    ensures |nls.uni2char(w)| == 1 && nls.upper(nls.uni2char(w)[0]) == nls.uni2char(w)[0]
      ==> ShortNames.ShortChar(nls, w) == nls.uni2char(w)
    ensures ReadsBack(nls) && |nls.uni2char(w)| > 1 && nls.uni2char(w)[0] != 0 ==>
      forall lower :: PartUnits(nls, lower, ShortNames.ShortChar(nls, w)) == [w]
  {
    if ReadsBack(nls) && |nls.uni2char(w)| > 1 && nls.uni2char(w)[0] != 0 {
      var c := nls.uni2char(w);
      assert CharBack(nls, w, []) && c + [] == c;
      assert c[|c|..] == [];
    }
  }

  lemma CharLegal(nls: ShortNames.Nls, w: u16)
    requires AsciiDisk(nls) && HighBytes(nls) && !BadChar(w)
    ensures Only(Legal, ShortNames.ShortChar(nls, w))
  {
    var c := nls.uni2char(w);
    if |c| == 1 && c[0] < 0x7F {
      assert c[0] == w && nls.upper(c[0]) == Upper(w);
    }
    forall i | 0 <= i < |c| && |c| > 1 ensures c[i] >= 0x7F {
      assert c[i] in c;
    }
  }

  /** What every character of a name becomes has such bytes only. */
  ghost predicate CharsOnly(nls: ShortNames.Nls, u: seq<u16>, ok: byte -> bool) {
    forall i :: 0 <= i < |u| ==> Only(ok, ShortNames.ShortChar(nls, u[i]))
  }

  /** And so have the tails. */
  predicate TailsOnly(ok: byte -> bool) {
    ok(ShortNames.TILDE) && (forall b: byte :: 0x30 <= b <= 0x39 || 0x41 <= b <= 0x46 ==> ok(b))
  }

  lemma {:induction false} TranslatedOnly(nls: ShortNames.Nls, u: seq<u16>, ok: byte -> bool)
    requires CharsOnly(nls, u, ok)
    ensures Only(ok, ShortNames.Translated(nls, u))
    decreases |u|
  {
    hide ShortNames.ShortChar;
    if u != [] {
      TranslatedOnly(nls, u[..|u| - 1], ok);
      assert Only(ok, ShortNames.ShortChar(nls, u[|u| - 1]));
    }
  }

  lemma PrefixOnly(ok: byte -> bool, a: seq<byte>, b: seq<byte>)
    requires a <= b && Only(ok, b)
    ensures Only(ok, a)
  {
    forall i | 0 <= i < |a| ensures ok(a[i]) {
      assert a[i] == b[i];
    }
  }

  lemma JoinedOnly(ok: byte -> bool, base: seq<byte>, ext: seq<byte>)
    requires |base| <= 8 && |ext| <= 3 && Only(ok, base) && Only(ok, ext)
    ensures NameOnly(ok, ShortNames.Joined(StoreFirst(base), ext))
  {
    var r := ShortNames.Joined(StoreFirst(base), ext);
    forall i | 0 <= i < MSDOS_NAME ensures ok(r[i]) || r[i] == SPACE || (i == 0 && r[i] == 0x05) {
      if i >= 8 {
        assert r[i] == Pad(ext, 3)[i - 8];
      } else {
        assert r[i] == Pad(StoreFirst(base), 8)[i];
      }
    }
  }

  lemma ByteOnly(ok: byte -> bool, name: seq<byte>, i: nat, b: byte)
    requires NameOnly(ok, name) && i < MSDOS_NAME && (ok(b) || b == SPACE)
    ensures NameOnly(ok, name[i := b])
  {
  }

  lemma NumberOnly(ok: byte -> bool, name: seq<byte>, baselen: nat, i: nat)
    requires TailsOnly(ok) && NameOnly(ok, name) && baselen <= 6 && 1 <= i <= 9
    ensures NameOnly(ok, ShortNames.WithNumber(name, baselen, i))
  {
    var digit: byte := 0x30 + i;
    assert ok(digit);
  }

  lemma DigitOnly(ok: byte -> bool, d: nat)
    requires TailsOnly(ok) && d < 16
    ensures ok(ShortNames.HexDigit(d))
  {
  }

  lemma DigitsOnly(ok: byte -> bool, t: nat)
    requires TailsOnly(ok) && t < ShortNames.TAILS
    ensures Only(ok, ShortNames.Hex4(t))
  {
    hide ShortNames.HexDigit, TailsOnly;
    DigitOnly(ok, t / 4096);
    DigitOnly(ok, t / 256 % 16);
    DigitOnly(ok, t / 16 % 16);
    DigitOnly(ok, t % 16);
  }

  lemma TailOnly(ok: byte -> bool, name: seq<byte>, baselen: nat, i: int)
    requires TailsOnly(ok) && NameOnly(ok, name) && baselen + 4 <= MSDOS_NAME
    ensures NameOnly(ok, ShortNames.WithTail(name, baselen, i))
  {
    hide ShortNames.Hex4, TailsOnly;
    DigitsOnly(ok, i % ShortNames.TAILS);
  }

  lemma MarkOnly(ok: byte -> bool, digit: byte)
    requires TailsOnly(ok) && 0x30 <= digit <= 0x39
    ensures ok(ShortNames.TILDE) && ok(digit)
  {
  }

  lemma HexNameOnly(ok: byte -> bool, name: seq<byte>, len6: nat, cut2: nat, jiffies: int)
    requires |name| == MSDOS_NAME && TailsOnly(ok) && NameOnly(ok, name) && len6 <= 6 && cut2 <= 2
    ensures NameOnly(ok, ShortNames.HexName(name, len6, cut2, jiffies))
  {
    hide ShortNames.WithNumber, NameOnly, TailsOnly;
    var len := ShortNames.CutLen(len6, 2, cut2);
    NumberOnly(ok, name, len6, 9);
    var n := ShortNames.WithNumber(name, len6, 9);
    MarkOnly(ok, 0x31 + jiffies / 0x1_0000 % 8);
    ByteOnly(ok, n, 7, SPACE);
    var m := ShortNames.CutName(n, len6, 2);
    ByteOnly(ok, m, len + 4, ShortNames.TILDE);
    ByteOnly(ok, m[len + 4 := ShortNames.TILDE], len + 5, 0x31 + jiffies / 0x1_0000 % 8);
  }

  lemma CutOnly(ok: byte -> bool, name: seq<byte>, baselen: nat, most: nat)
    requires NameOnly(ok, name)
    ensures NameOnly(ok, ShortNames.CutName(name, baselen, most))
  {
    hide NameOnly;
    ByteOnly(ok, name, 7, SPACE);
  }

  lemma FirstTailOnly(
    ok: byte -> bool, es: seq<Slot>, name: seq<byte>, len6: nat, cut2: nat, jiffies: int, r: seq<byte>)
    requires TailsOnly(ok) && NameOnly(ok, name) && ShortNames.FirstTail(es, name, len6, cut2, jiffies, r)
    ensures NameOnly(ok, r)
  {
    hide NameOnly, TailsOnly, ShortNames.NumbersTaken, ShortNames.NoneFree, ShortNames.WithNumber, ShortNames.HexName;
    if i :| 1 <= i <= 9 && r == ShortNames.WithNumber(name, len6, i) && ShortNames.NumbersTaken(es, name, len6, i) {
      NumberOnly(ok, name, len6, i);
    } else {
      var len := ShortNames.CutLen(len6, 2, cut2);
      var hex := ShortNames.HexName(name, len6, cut2, jiffies);
      var k: nat :| k < ShortNames.TAILS && ShortNames.HexTailIs(es, hex, len, jiffies, k, r);
      HexNameOnly(ok, name, len6, cut2, jiffies);
      TailOnly(ok, hex, len, ShortNames.TailAt(jiffies, k));
    }
  }

  /** An alias has the bytes its characters become, and those of its tail. */
  lemma AliasOnly(
    ok: byte -> bool, es: seq<Slot>, nls: ShortNames.Nls, opts: ShortNames.Options, u: seq<u16>, jiffies: int,
    a: ShortNames.Alias)
    requires TailsOnly(ok) && CharsOnly(nls, u, ok)
    requires a.Alias? && ShortNames.AliasOk(es, nls, opts, u, jiffies, a)
    ensures NameOnly(ok, a.name)
  {
    hide NameOnly, TailsOnly, CharsOnly, ShortNames.Divides, ShortNames.FirstTail, ShortNames.BaseOf, ShortNames.ExtOf;
    hide ShortNames.Joined, ShortNames.StandsAlone, ShortNames.ShortForm, ShortNames.LowerPart, ShortNames.Storable;
    hide ShortNames.CutName, ShortNames.PartFits, StoreFirst;
    var sz: nat, ext: nat :|
      ShortNames.Divides(u, sz, ext) && ShortNames.AliasFor(es, nls, opts, u, jiffies, sz, ext, a);
    var b, e :| ShortNames.MadeFrom(es, nls, opts, u, sz, ext, b, e, jiffies, a.name);
    PartsOnly(ok, nls, u, sz, ext, b, e);
    JoinedOnly(ok, b.bytes, e.bytes);
    var plain := ShortNames.Plain(b, e);
    CutOnly(ok, plain, |b.bytes|, 6);
    if a.name != plain {
      FirstTailOnly(ok, es, ShortNames.CutName(plain, |b.bytes|, 6), ShortNames.CutLen(|b.bytes|, 6, b.cut6), b.cut2,
                    jiffies, a.name);
    }
  }

  lemma PartsOnly(
    ok: byte -> bool, nls: ShortNames.Nls, u: seq<u16>, sz: nat, ext: nat, b: ShortNames.Base, e: ShortNames.Ext)
    requires CharsOnly(nls, u, ok) && sz <= |u| && ext <= |u|
    requires ShortNames.BaseOf(nls, u[..sz], b) && ShortNames.ExtOf(nls, u[ext..], e)
    ensures |b.bytes| <= 8 && |e.bytes| <= 3 && Only(ok, b.bytes) && Only(ok, e.bytes)
  {
    hide Only, ShortNames.Translated, ShortNames.CutsOk, ShortNames.InfoIs;
    TranslatedOnly(nls, u[..sz], ok);
    TranslatedOnly(nls, u[ext..], ok);
    PrefixOnly(ok, b.bytes, ShortNames.Translated(nls, u[..sz]));
    PrefixOnly(ok, e.bytes, ShortNames.Translated(nls, u[ext..]));
  }

  /** Whatever the name and the options: every byte of an alias may stand in an 8.3 name. */
  lemma AliasLegal(
    es: seq<Slot>, nls: ShortNames.Nls, opts: ShortNames.Options, u: seq<u16>, jiffies: int, a: ShortNames.Alias)
    requires AsciiDisk(nls) && HighBytes(nls) && Acceptable(u)
    requires a.Alias? && ShortNames.AliasOk(es, nls, opts, u, jiffies, a)
    ensures NameOnly(Legal, a.name)
  {
    hide AsciiDisk, HighBytes, Only, NameOnly, ShortNames.AliasOk, ShortNames.ShortChar, BadChar;
    forall i | 0 <= i < |u| ensures Only(Legal, ShortNames.ShortChar(nls, u[i])) {
      CharLegal(nls, u[i]);
    }
    AliasOnly(Legal, es, nls, opts, u, jiffies, a);
  }
}
