/** Long names as bytes (dir.c `uni16_to_x8`, namei_vfat.c `xlate_to_uni`): a unit the code page
    does not have is shown as a colon and four hexadecimal digits when the volume is mounted with
    `uni_xlate`, and as a question mark otherwise. */
module NameText {
  import opened Arithmetic
  import opened EntryCodec
  import opened DirSlots

  const COLON: byte := 0x3A
  const QUESTION: byte := 0x3F

  /** `char2uni`: no character, or how many bytes it takes and its unit. */
  datatype Decoded = NoChar | Char(len: nat, unit: u16)

  /** A code page: `uni2char` (empty when there is no such character), `char2uni` and
      `nls_tolower`. */
  datatype CodePage = CodePage(
    uni2char: u16 -> seq<byte>, char2uni: seq<byte> -> Decoded, lower: byte -> byte)

  /** What is assumed of a code page: characters have 1 to 6 bytes, reading a written character
      gives it back whatever follows, and only a colon starts with the byte of a colon. */
  ghost predicate CodePageOk(cp: CodePage) {
    && (forall c :: |cp.uni2char(c)| <= NLS_MAX_CHARSET_SIZE)
    && (forall s :: cp.char2uni(s).Char? ==> 1 <= cp.char2uni(s).len <= |s|)
    && (forall c, rest :: cp.uni2char(c) != [] ==> Reads(cp, c, rest))
    && (forall c :: c != COLON && cp.uni2char(c) != [] ==> cp.uni2char(c)[0] != COLON)
    && cp.uni2char(QUESTION) == [QUESTION]
  }

  predicate Reads(cp: CodePage, c: u16, rest: seq<byte>) {
    cp.char2uni(cp.uni2char(c) + rest) == Char(|cp.uni2char(c)|, c)
  }

  // ----- showing a name ---------------------------------------------------------------------

  function LowerHex(d: nat): byte
    requires d < 16
  {
    if d < 10 then 0x30 + d else 0x61 + (d - 10)
  }

  /** `hex_byte_pack` of both bytes of a unit. */
  function HexUnit(c: u16): (r: seq<byte>)
    ensures |r| == 4
  {
    [LowerHex(c / 4096), LowerHex(c / 256 % 16), LowerHex(c / 16 % 16), LowerHex(c % 16)]
  }

  function Shown(cp: CodePage, escape: bool, c: u16): (r: seq<byte>) {
    if cp.uni2char(c) != [] then cp.uni2char(c)
    else if escape then [COLON] + HexUnit(c)
    else [QUESTION]
  }

  function ShownAll(cp: CodePage, escape: bool, u: seq<u16>): seq<byte>
    decreases |u|
  {
    if u == [] then [] else Shown(cp, escape, u[0]) + ShownAll(cp, escape, u[1..])
  }

  lemma {:induction false} ShownSnoc(cp: CodePage, escape: bool, u: seq<u16>, c: u16)
    ensures ShownAll(cp, escape, u + [c]) == ShownAll(cp, escape, u) + Shown(cp, escape, c)
    decreases |u|
  {
    if u == [] {
      assert u + [c] == [c];
      assert ShownAll(cp, escape, [c]) == Shown(cp, escape, c) + ShownAll(cp, escape, [c][1..]);
    } else {
      ShownSnoc(cp, escape, u[1..], c);
      assert (u + [c])[1..] == u[1..] + [c];
      assert Shown(cp, escape, u[0]) + (ShownAll(cp, escape, u[1..]) + Shown(cp, escape, c))
          == (Shown(cp, escape, u[0]) + ShownAll(cp, escape, u[1..])) + Shown(cp, escape, c);
    }
  }

  /** `uni16_to_x8`: the units before the first zero, as far as the buffer goes. */
  method Uni16ToX8(cp: CodePage, escape: bool, uni: seq<u16>, size: nat) returns (text: seq<byte>, n: nat)
    requires CodePageOk(cp) && 0 in uni
    ensures n <= |UpToZero(uni)| && text == ShownAll(cp, escape, UpToZero(uni)[..n])
    ensures size > NLS_MAX_CHARSET_SIZE * |UpToZero(uni)| ==> n == |UpToZero(uni)|
  {
    hide Text;
    var ip, len := 0, size;
    text, n := [], 0;
    EndInside(uni);
    while uni[ip] != 0 && len - NLS_MAX_CHARSET_SIZE > 0
      invariant 0 <= ip <= |UpToZero(uni)| < |uni|
      invariant text == ShownAll(cp, escape, UpToZero(uni)[..ip])
      invariant len >= size - NLS_MAX_CHARSET_SIZE * ip
      decreases |uni| - ip
    {
      var ec := uni[ip];
      ghost var z := UpToZero(uni);
      assert ip < |z| && z[ip] == ec;
      assert z[..ip + 1] == z[..ip] + [ec];
      ShownSnoc(cp, escape, z[..ip], ec);
      ip := ip + 1;
      if |cp.uni2char(ec)| > 0 {
        text, len := text + cp.uni2char(ec), len - |cp.uni2char(ec)|;
      } else if escape {
        text, len := text + ([COLON] + HexUnit(ec)), len - 5;
      } else {
        text, len := text + [QUESTION], len - 1;
      }
    }
    n := ip;
  }

  lemma EndInside(uni: seq<u16>)
    requires 0 in uni
    ensures |UpToZero(uni)| < |uni| && uni[|UpToZero(uni)|] == 0
  {
    assert uni[..|uni|] == uni;
  }

  // ----- reading a name ------------------------------------------------------------------------

  /** The value of a hexadecimal digit, 16 for anything else. */
  function HexValue(c: byte): (v: nat)
    ensures v <= 16
  {
    if 0x30 <= c <= 0x39 then c - 0x30
    else if 0x61 <= c <= 0x66 then c - 0x61 + 10
    else if 0x41 <= c <= 0x46 then c - 0x41 + 10
    else 16
  }

  datatype Xlated = Units(units: seq<u16>) | BadText | TooLong

  /** Four digits behind a colon. */
  function HexAt(s: seq<byte>): (v: nat)
    requires |s| >= 5
    ensures v <= 0x1_0000
  {
    var a, b, c, d := HexValue(s[1]), HexValue(s[2]), HexValue(s[3]), HexValue(s[4]);
    if a == 16 || b == 16 || c == 16 || d == 16 then 0x1_0000 else a * 4096 + b * 256 + c * 16 + d
  }

  predicate SmallDigit(b: byte) { 0x30 <= b <= 0x39 || 0x61 <= b <= 0x66 }

  /** One unit from the front of the text, and how many bytes it takes. */
  function FirstUnit(cp: CodePage, escape: bool, s: seq<byte>): (r: Decoded)
    requires |s| > 0
  {
    if escape && s[0] == COLON then
      if |s| < 5 || HexAt(s) == 0x1_0000 then NoChar else Char(5, HexAt(s))
    else cp.char2uni(s)
  }

  /** `xlate_to_uni` of the text `s`, with `n` units already there. */
  function Xlate(cp: CodePage, escape: bool, s: seq<byte>, n: nat): Xlated
    decreases |s|
  {
    if s == [] then Units([])
    else if n >= FAT_LFN_LEN then TooLong
    else match FirstUnit(cp, escape, s)
      case NoChar => BadText
      case Char(len, c) =>
        if 1 <= len <= |s| then
          match Xlate(cp, escape, s[len..], n + 1)
          case Units(u) => Units([c] + u)
          case BadText => BadText
          case TooLong => TooLong
        else BadText
  }

  /** What a shown unit reads as. */
  function ReadAs(cp: CodePage, escape: bool, c: u16): u16 {
    if cp.uni2char(c) != [] || escape then c else QUESTION
  }

  function ReadAllAs(cp: CodePage, escape: bool, u: seq<u16>): (r: seq<u16>)
    ensures |r| == |u| && forall i :: 0 <= i < |u| ==> r[i] == ReadAs(cp, escape, u[i])
  {
    seq(|u|, i requires 0 <= i < |u| => ReadAs(cp, escape, u[i]))
  }

  lemma HexDigitBack(d: nat)
    requires d < 16
    ensures SmallDigit(LowerHex(d)) && HexValue(LowerHex(d)) == d
  {
  }

  /** The escape of a unit: its value in hexadecimal, with small letters. */
  lemma HexUnitBack(c: u16, rest: seq<byte>)
    ensures HexAt(([COLON] + HexUnit(c)) + rest) == c
    ensures forall i :: 0 <= i < 4 ==> SmallDigit(HexUnit(c)[i])
  {
    hide LowerHex, HexValue, SmallDigit;
    var s := ([COLON] + HexUnit(c)) + rest;
    assert s[1] == LowerHex(c / 4096) && s[2] == LowerHex(c / 256 % 16);
    assert s[3] == LowerHex(c / 16 % 16) && s[4] == LowerHex(c % 16);
    HexDigitBack(c / 4096);
    HexDigitBack(c / 256 % 16);
    HexDigitBack(c / 16 % 16);
    HexDigitBack(c % 16);
    HexDigits(c);
  }

  lemma ShownReads(cp: CodePage, escape: bool, c: u16, rest: seq<byte>)
    requires CodePageOk(cp) && c != COLON
    ensures |Shown(cp, escape, c)| > 0
    ensures FirstUnit(cp, escape, Shown(cp, escape, c) + rest) == Char(|Shown(cp, escape, c)|, ReadAs(cp, escape, c))
  {
    if cp.uni2char(c) != [] {
      assert Reads(cp, c, rest);
    } else if escape {
      HexUnitBack(c, rest);
    } else {
      assert Reads(cp, QUESTION, rest);
    }
  }

  /** Reading what is shown of a name gives every unit back, or a question mark for it. */
  lemma {:induction false} ShownThenRead(cp: CodePage, escape: bool, u: seq<u16>, n: nat)
    requires CodePageOk(cp) && COLON !in u && n + |u| <= FAT_LFN_LEN
    ensures Xlate(cp, escape, ShownAll(cp, escape, u), n) == Units(ReadAllAs(cp, escape, u))
    decreases |u|
  {
    hide CodePageOk, Shown, FirstUnit, HexUnit;
    if u == [] {
      assert ReadAllAs(cp, escape, u) == [];
    } else {
      var head, rest := Shown(cp, escape, u[0]), ShownAll(cp, escape, u[1..]);
      ShownReads(cp, escape, u[0], rest);
      ShownThenRead(cp, escape, u[1..], n + 1);
      assert (head + rest)[|head|..] == rest;
      assert ReadAllAs(cp, escape, u) == [ReadAs(cp, escape, u[0])] + ReadAllAs(cp, escape, u[1..]);
    }
  }

  /** The text of a name round trip: a name of up to 255 valid units is read back from its text
      exactly when `uni_xlate` is set or the code page has every unit of it. */
  lemma TextRoundTrip(cp: CodePage, escape: bool, u: seq<u16>)
    requires CodePageOk(cp) && COLON !in u && QUESTION !in u && |u| <= FAT_LFN_LEN
    ensures Xlate(cp, escape, ShownAll(cp, escape, u), 0) == Units(u)
        <==> escape || forall i :: 0 <= i < |u| ==> cp.uni2char(u[i]) != []
  {
    ShownThenRead(cp, escape, u, 0);
    var r := ReadAllAs(cp, escape, u);
    if escape || forall i :: 0 <= i < |u| ==> cp.uni2char(u[i]) != [] {
      assert r == u;
    } else {
      var i :| 0 <= i < |u| && cp.uni2char(u[i]) == [];
      assert r[i] == QUESTION && u[i] != QUESTION;
    }
  }

  /** The text of a name is refused as too long exactly if the name has more than 255 units. */
  lemma NameLimit(cp: CodePage, escape: bool, u: seq<u16>)
    requires CodePageOk(cp) && COLON !in u
    ensures Xlate(cp, escape, ShownAll(cp, escape, u), 0) == TooLong <==> |u| > 255
  {
    if |u| > 255 {
      TooManyUnits(cp, escape, u, 0);
    } else {
      ShownThenRead(cp, escape, u, 0);
    }
  }

  lemma {:induction false} TooManyUnits(cp: CodePage, escape: bool, u: seq<u16>, n: nat)
    requires CodePageOk(cp) && COLON !in u && n <= FAT_LFN_LEN < n + |u|
    ensures Xlate(cp, escape, ShownAll(cp, escape, u), n) == TooLong
    decreases |u|
  {
    hide CodePageOk, Shown, FirstUnit, HexUnit;
    var head, rest := Shown(cp, escape, u[0]), ShownAll(cp, escape, u[1..]);
    ShownReads(cp, escape, u[0], rest);
    if n < FAT_LFN_LEN {
      TooManyUnits(cp, escape, u[1..], n + 1);
      assert (head + rest)[|head|..] == rest;
    }
  }

  /** `xlate_to_uni` without UTF-8: the units, and what they are padded with. */
  method XlateToUni(cp: CodePage, escape: bool, name: seq<byte>) returns (status: Xlated, padded: seq<u16>)
    requires CodePageOk(cp)
    ensures status == Xlate(cp, escape, name, 0)
    ensures status.Units? ==> padded == Padded(status.units) && |status.units| <= FAT_LFN_LEN
  {
    hide Xlate, Halfway, Padded, FirstUnit;
    var i, out := 0, [];
    XlateStart(cp, escape, name);
    while i < |name| && |out| < FAT_LFN_LEN
      invariant 0 <= i <= |name| && |out| <= FAT_LFN_LEN
      invariant Halfway(cp, escape, name, i, out)
    {
      var ip := name[i..];
      var first := FirstUnit(cp, escape, ip);
      if first.NoChar? {
        XlateEnds(cp, escape, name, i, out);
        return BadText, [];
      }
      XlateOn(cp, escape, name, i, out, first.len, first.unit);
      i, out := i + first.len, out + [first.unit];
    }
    XlateEnds(cp, escape, name, i, out);
    if i < |name| {
      return TooLong, [];
    }
    status := Units(out);
    padded := PadUnits(out);
  }

  /** A zero and filler up to a whole number of slots. */
  method PadUnits(out: seq<u16>) returns (padded: seq<u16>)
    ensures padded == Padded(out)
  {
    padded := out;
    if |padded| % 13 != 0 {
      padded := padded + [0];
      if |padded| % 13 != 0 {
        padded := padded + Filler(13 - |padded| % 13);
      }
    }
  }

  /** The text up to byte `i` has given the units `out`. */
  ghost predicate Halfway(cp: CodePage, escape: bool, name: seq<byte>, i: nat, out: seq<u16>) {
    i <= |name| && Xlate(cp, escape, name, 0) == Prepend(out, Xlate(cp, escape, name[i..], |out|))
  }

  lemma XlateStart(cp: CodePage, escape: bool, name: seq<byte>)
    ensures Halfway(cp, escape, name, 0, [])
  {
    assert name[0..] == name;
    var r := Xlate(cp, escape, name, 0);
    if r.Units? {
      assert [] + r.units == r.units;
    }
  }

  lemma XlateOn(cp: CodePage, escape: bool, name: seq<byte>, i: nat, out: seq<u16>, len: nat, c: u16)
    requires CodePageOk(cp) && Halfway(cp, escape, name, i, out) && i < |name| && |out| < FAT_LFN_LEN
    requires FirstUnit(cp, escape, name[i..]) == Char(len, c)
    ensures 1 <= len && i + len <= |name| && Halfway(cp, escape, name, i + len, out + [c])
  {
    XlateStep(cp, escape, name[i..], out, len, c);
    assert name[i..][len..] == name[i + len..];
  }

  lemma XlateEnds(cp: CodePage, escape: bool, name: seq<byte>, i: nat, out: seq<u16>)
    requires Halfway(cp, escape, name, i, out)
    ensures i == |name| ==> Xlate(cp, escape, name, 0) == Units(out)
    ensures i < |name| && |out| >= FAT_LFN_LEN ==> Xlate(cp, escape, name, 0) == TooLong
    ensures i < |name| && |out| < FAT_LFN_LEN && FirstUnit(cp, escape, name[i..]).NoChar?
      ==> Xlate(cp, escape, name, 0) == BadText
  {
    if i == |name| {
      assert name[i..] == [];
      assert out + [] == out;
    }
  }

  function Prepend(u: seq<u16>, r: Xlated): Xlated {
    match r
    case Units(w) => Units(u + w)
    case BadText => BadText
    case TooLong => TooLong
  }

  lemma FirstUnitLen(cp: CodePage, escape: bool, s: seq<byte>)
    requires CodePageOk(cp) && s != [] && FirstUnit(cp, escape, s).Char?
    ensures 1 <= FirstUnit(cp, escape, s).len <= |s|
  {
  }

  lemma XlateStep(cp: CodePage, escape: bool, s: seq<byte>, out: seq<u16>, len: nat, c: u16)
    requires CodePageOk(cp) && s != [] && |out| < FAT_LFN_LEN && FirstUnit(cp, escape, s) == Char(len, c)
    ensures 1 <= len <= |s|
    ensures Prepend(out, Xlate(cp, escape, s, |out|)) == Prepend(out + [c], Xlate(cp, escape, s[len..], |out| + 1))
  {
    hide CodePageOk, FirstUnit;
    FirstUnitLen(cp, escape, s);
    var r := Xlate(cp, escape, s[len..], |out| + 1);
    if r.Units? {
      assert out + ([c] + r.units) == (out + [c]) + r.units;
    }
  }
}
