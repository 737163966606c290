/** The alias of a long name (namei_vfat.c): an upper-case 8.3 name made from it, and made
    unique in the directory by a numeric tail, or by a tail of four hexadecimal digits that is
    stepped by 11 until it is free. */
module ShortNames {
  import opened Arithmetic
  import opened EntryCodec
  import opened DirSlots
  import opened DirRecords
  import opened FatDirectory
  import NameText

  const TILDE: byte := 0x7E
  const TAILS := 0x1_0000

  // ----- the search over hexadecimal tails ---------------------------------------------------

  /** The live short names of a directory. */
  function Names(es: seq<Slot>): set<seq<byte>> {
    set i | 0 <= i < |es| && LiveShort(es[i]) :: ShortName(es[i])
  }

  /** Without a zero byte in it a name is only equal to itself. */
  lemma StrnSame(a: seq<byte>, b: seq<byte>)
    requires |a| == MSDOS_NAME && |b| == MSDOS_NAME && 0 !in b
    ensures StrnEq(a, b) <==> a == b
  {
    if StrnEq(a, b) {
      forall i | 0 <= i < MSDOS_NAME ensures a[i] == b[i] {
        ZeroBoth(a, b, i);
      }
    }
  }

  lemma FreeMeansAbsent(es: seq<Slot>, name: seq<byte>)
    requires |name| == MSDOS_NAME && 0 !in name
    ensures NameFree(es, name) <==> name !in Names(es)
  {
    forall i | 0 <= i < |es| && LiveShort(es[i]) ensures StrnEq(ShortName(es[i]), name) <==> ShortName(es[i]) == name {
      StrnSame(ShortName(es[i]), name);
    }
  }

  /** `snprintf("%04X")` of a 16-bit number. */
  function HexDigit(d: nat): byte
    requires d < 16
  {
    if d < 10 then 0x30 + d else 0x41 + (d - 10)
  }

  function Hex4(t: nat): (r: seq<byte>)
    requires t < TAILS
    ensures |r| == 4 && 0 !in r
  {
    [HexDigit(t / 4096), HexDigit(t / 256 % 16), HexDigit(t / 16 % 16), HexDigit(t % 16)]
  }

  lemma Hex4Injective(s: nat, t: nat)
    requires s < TAILS && t < TAILS && Hex4(s) == Hex4(t)
    ensures s == t
  {
    assert s / 4096 == t / 4096 && s / 256 % 16 == t / 256 % 16 && s / 16 % 16 == t / 16 % 16 && s % 16 == t % 16 by {
      DigitInjective(s / 4096, t / 4096);
      DigitInjective(s / 256 % 16, t / 256 % 16);
      DigitInjective(s / 16 % 16, t / 16 % 16);
      DigitInjective(s % 16, t % 16);
      assert Hex4(s)[0] == Hex4(t)[0] && Hex4(s)[1] == Hex4(t)[1];
      assert Hex4(s)[2] == Hex4(t)[2] && Hex4(s)[3] == Hex4(t)[3];
    }
    HexDigits(s);
    HexDigits(t);
  }

  lemma DigitInjective(c: nat, d: nat)
    requires c < 16 && d < 16
    ensures HexDigit(c) == HexDigit(d) ==> c == d
  {
  }

  /** Name `name` with the hexadecimal tail of `i` at `baselen`. */
  function WithTail(name: seq<byte>, baselen: nat, i: int): (r: seq<byte>)
    requires |name| == MSDOS_NAME && baselen + 4 <= MSDOS_NAME
    ensures |r| == MSDOS_NAME && r[baselen..baselen + 4] == Hex4(i % TAILS)
    ensures 0 !in name ==> 0 !in r
  {
    name[..baselen] + Hex4(i % TAILS) + name[baselen + 4..]
  }

  /** The tail tried in step `k`. */
  function TailAt(i0: int, k: nat): int { i0 - 11 * k }

  /** 11 is invertible modulo 65536: 11 * 35747 == 6 * 65536 + 1. */
  lemma StepsDiffer(i0: int, k: nat, k': nat)
    requires k < k' < TAILS
    ensures TailAt(i0, k) % TAILS != TailAt(i0, k') % TAILS
  {
    var d, m := k' - k, TailAt(i0, k) / TAILS - TailAt(i0, k') / TAILS;
    assert 11 * d == TAILS * m ==> d == TAILS * (35747 * m - 6 * d);
  }

  /** Stepping by 11 comes to every tail within 65536 steps. */
  lemma StepsReach(i0: int, t: nat)
    requires t < TAILS
    ensures exists k: nat :: k < TAILS && TailAt(i0, k) % TAILS == t
  {
    var k := (i0 - t) * 35747 % TAILS;
    var q := (i0 - t) * 35747 / TAILS;
    assert (i0 - t) * 35747 == q * TAILS + k;
    assert TailAt(i0, k) == t + TAILS * (11 * q - 6 * (i0 - t));
    ModOf(t, 11 * q - 6 * (i0 - t));
  }

  lemma ModOf(t: nat, m: int)
    requires t < TAILS
    ensures (t + TAILS * m) % TAILS == t
  {
  }

  function TailNames(name: seq<byte>, baselen: nat, i0: int, n: nat): set<seq<byte>>
    requires |name| == MSDOS_NAME && baselen + 4 <= MSDOS_NAME
    decreases n
  {
    if n == 0 then {} else TailNames(name, baselen, i0, n - 1) + {WithTail(name, baselen, TailAt(i0, n - 1))}
  }

  lemma {:induction false} TailNamesOf(name: seq<byte>, baselen: nat, i0: int, n: nat, x: seq<byte>)
    requires |name| == MSDOS_NAME && baselen + 4 <= MSDOS_NAME && x in TailNames(name, baselen, i0, n)
    ensures exists k: nat :: k < n && x == WithTail(name, baselen, TailAt(i0, k))
    decreases n
  {
    if n > 0 && x in TailNames(name, baselen, i0, n - 1) {
      TailNamesOf(name, baselen, i0, n - 1, x);
    }
  }

  lemma {:induction false} TailNamesCount(name: seq<byte>, baselen: nat, i0: int, n: nat)
    requires |name| == MSDOS_NAME && baselen + 4 <= MSDOS_NAME && n <= TAILS
    ensures |TailNames(name, baselen, i0, n)| == n
    decreases n
  {
    if n > 0 {
      TailNamesCount(name, baselen, i0, n - 1);
      var x := WithTail(name, baselen, TailAt(i0, n - 1));
      if x in TailNames(name, baselen, i0, n - 1) {
        TailNamesOf(name, baselen, i0, n - 1, x);
        var k: nat :| k < n - 1 && x == WithTail(name, baselen, TailAt(i0, k));
        Hex4Injective(TailAt(i0, k) % TAILS, TailAt(i0, n - 1) % TAILS);
        StepsDiffer(i0, k, n - 1);
      }
    }
  }

  lemma SubsetCount<T>(a: set<T>, b: set<T>)
    requires a <= b
    ensures |a| <= |b|
  {
    assert b == a + (b - a);
  }

  /** The tail of step `k` gives a name the directory does not have. */
  ghost predicate TailFree(es: seq<Slot>, name: seq<byte>, baselen: nat, i0: int, k: nat)
    requires |name| == MSDOS_NAME && baselen + 4 <= MSDOS_NAME
  {
    NameFree(es, WithTail(name, baselen, TailAt(i0, k)))
  }

  /** With fewer than 65536 live names, one of the first 65536 tails is free. */
  lemma SomeTailFree(es: seq<Slot>, name: seq<byte>, baselen: nat, i0: int) returns (k: nat)
    requires |name| == MSDOS_NAME && baselen + 4 <= MSDOS_NAME && 0 !in name
    requires |Names(es)| < TAILS
    ensures k < TAILS && TailFree(es, name, baselen, i0, k)
  {
    if forall k: nat :: k < TAILS ==> !TailFree(es, name, baselen, i0, k) {
      forall x | x in TailNames(name, baselen, i0, TAILS) ensures x in Names(es) {
        TailNamesOf(name, baselen, i0, TAILS, x);
        var k: nat :| k < TAILS && x == WithTail(name, baselen, TailAt(i0, k));
        assert !TailFree(es, name, baselen, i0, k);
        FreeMeansAbsent(es, x);
      }
      TailNamesCount(name, baselen, i0, TAILS);
      SubsetCount(TailNames(name, baselen, i0, TAILS), Names(es));
      assert false;
    }
    k :| k < TAILS && TailFree(es, name, baselen, i0, k);
  }

  /** Tail `t` gives a name the directory does not have. */
  ghost predicate TailAbsent(es: seq<Slot>, name: seq<byte>, baselen: nat, t: nat)
    requires |name| == MSDOS_NAME && baselen + 4 <= MSDOS_NAME
  {
    t < TAILS && NameFree(es, WithTail(name, baselen, t))
  }

  lemma SameTail(name: seq<byte>, baselen: nat, i: int, t: nat)
    requires |name| == MSDOS_NAME && baselen + 4 <= MSDOS_NAME && t < TAILS && i % TAILS == t
    ensures WithTail(name, baselen, i) == WithTail(name, baselen, t)
  {
    assert t % TAILS == t;
  }

  /** The steps come to a free name exactly when one of the 65536 tails gives one. */
  lemma SearchEnds(es: seq<Slot>, name: seq<byte>, baselen: nat, i0: int)
    requires |name| == MSDOS_NAME && baselen + 4 <= MSDOS_NAME
    ensures (exists k: nat :: TailFree(es, name, baselen, i0, k))
        <==> (exists t: nat :: TailAbsent(es, name, baselen, t))
    ensures (exists t: nat :: TailAbsent(es, name, baselen, t)) ==>
      exists k: nat :: k < TAILS && TailFree(es, name, baselen, i0, k)
  {
    if t: nat :| TailAbsent(es, name, baselen, t) {
      StepsReach(i0, t);
      var k: nat :| k < TAILS && TailAt(i0, k) % TAILS == t;
      SameTail(name, baselen, TailAt(i0, k), t);
      assert TailFree(es, name, baselen, i0, k);
    }
    if k: nat :| TailFree(es, name, baselen, i0, k) {
      SameTail(name, baselen, TailAt(i0, k), TailAt(i0, k) % TAILS);
      assert TailAbsent(es, name, baselen, TailAt(i0, k) % TAILS);
    }
  }

  ghost predicate NoneFree(es: seq<Slot>, name: seq<byte>, baselen: nat, i0: int, k: nat)
    requires |name| == MSDOS_NAME && baselen + 4 <= MSDOS_NAME
  {
    forall j: nat :: j < k ==> !TailFree(es, name, baselen, i0, j)
  }

  lemma TailTaken(es: seq<Slot>, name: seq<byte>, baselen: nat, i0: int, k: nat, last: nat)
    requires |name| == MSDOS_NAME && baselen + 4 <= MSDOS_NAME && k <= last
    requires !NameFree(es, WithTail(name, baselen, TailAt(i0, k))) && TailFree(es, name, baselen, i0, last)
    requires NoneFree(es, name, baselen, i0, k)
    ensures k < last && NoneFree(es, name, baselen, i0, k + 1)
  {
    assert !TailFree(es, name, baselen, i0, k);
  }

  /** If any tail gives a free name, the search ends, after fewer than 65536 steps, with a name
      that is free; it is the first tail in its order that is. */
  method HexTail(dir: Directory, name: seq<byte>, baselen: nat, jiffies: int) returns (r: seq<byte>, ghost k: nat)
    requires dir.Valid() && |name| == MSDOS_NAME && baselen + 4 <= MSDOS_NAME
    requires exists t: nat :: TailAbsent(dir.entries, name, baselen, t)
    ensures k < TAILS && r == WithTail(name, baselen, TailAt(jiffies, k)) && NameFree(dir.entries, r)
    ensures NoneFree(dir.entries, name, baselen, jiffies, k)
  {
    var i := jiffies;
    k := 0;
    SearchEnds(dir.entries, name, baselen, jiffies);
    ghost var last: nat :| last < TAILS && TailFree(dir.entries, name, baselen, jiffies, last);
    while true
      invariant i == TailAt(jiffies, k) && k <= last
      invariant NoneFree(dir.entries, name, baselen, jiffies, k)
      decreases last - k
    {
      r := WithTail(name, baselen, i);
      var found, off := dir.Scan(r);
      if !found {
        return;
      }
      TailTaken(dir.entries, name, baselen, jiffies, k, last);
      i, k := i - 11, k + 1;
    }
  }

  // ----- characters -----------------------------------------------------------------------

  /** The code page on disk: `uni2char` (empty when there is no such character), `char2uni`,
      `nls_toupper`, `nls_tolower` and the kernel's `isalpha`. */
  datatype Nls = Nls(
    uni2char: u16 -> seq<byte>, char2uni: seq<byte> -> NameText.Decoded,
    upper: byte -> byte, lower: byte -> byte, alpha: byte -> bool)

  /** What is assumed of it: no character has a zero byte, and only a blank starts like a blank. */
  ghost predicate NlsOk(nls: Nls) {
    && (forall c :: |nls.uni2char(c)| <= NLS_MAX_CHARSET_SIZE)
    && (forall c :: c != 0 ==> 0 !in nls.uni2char(c))
    && (forall b :: b != 0 ==> nls.upper(b) != 0)
    && (forall c :: c != 0x20 && nls.uni2char(c) != [] ==> nls.uni2char(c)[0] != SPACE)
    && (forall b :: b != SPACE ==> nls.upper(b) != SPACE)
  }

  predicate SkipChar(w: u16) { w == 0x2E || w == 0x20 }

  predicate ReplaceChar(w: u16) {
    w == 0x5B || w == 0x5D || w == 0x3B || w == 0x2C || w == 0x2B || w == 0x3D
  }

  /** `struct shortname_info`. */
  datatype Info = Info(lower: bool, upper: bool, valid: bool)

  /** `to_shortname_char`: the bytes for one character, none for one that is left out. */
  function ShortChar(nls: Nls, w: u16): seq<byte> {
    if SkipChar(w) then []
    else if ReplaceChar(w) || nls.uni2char(w) == [] then [0x5F]
    else if |nls.uni2char(w)| == 1 then [nls.upper(nls.uni2char(w)[0])]
    else nls.uni2char(w)
  }

  function ShortInfo(nls: Nls, w: u16, info: Info): Info {
    if SkipChar(w) || ReplaceChar(w) || nls.uni2char(w) == [] then info.(valid := false)
    else if |nls.uni2char(w)| == 1 then
      var c := nls.uni2char(w)[0];
      var i := if c >= 0x7F then info.(lower := false, upper := false) else info;
      if !nls.alpha(nls.upper(c)) then i
      else if nls.upper(c) == c then i.(lower := false) else i.(upper := false)
    else info.(lower := false, upper := false)
  }

  /** The alias bytes of a whole stretch of the name. */
  function Translated(nls: Nls, u: seq<u16>): seq<byte>
    decreases |u|
  {
    if u == [] then [] else Translated(nls, u[..|u| - 1]) + ShortChar(nls, u[|u| - 1])
  }

  /** Every character of the stretch has its own alias. */
  predicate Faithful(nls: Nls, u: seq<u16>) {
    forall i :: 0 <= i < |u| ==> !SkipChar(u[i]) && !ReplaceChar(u[i]) && nls.uni2char(u[i]) != []
  }

  lemma {:induction false} TranslatedNonzero(nls: Nls, u: seq<u16>)
    requires NlsOk(nls) && 0 !in u
    ensures 0 !in Translated(nls, u)
    decreases |u|
  {
    if u != [] {
      TranslatedNonzero(nls, u[..|u| - 1]);
      assert u[|u| - 1] != 0;
    }
  }

  lemma TranslatedStep(nls: Nls, u: seq<u16>, i: nat)
    requires i < |u|
    ensures Translated(nls, u[..i + 1]) == Translated(nls, u[..i]) + ShortChar(nls, u[i])
  {
    assert u[..i + 1][..i] == u[..i];
  }

  const UNSEEN := Info(true, true, true)

  /** Every character is one upper-case letter, or no letter, below 0x7F; likewise lower-case. */
  predicate AllUpper(nls: Nls, u: seq<u16>) { forall i :: 0 <= i < |u| ==> ShortInfo(nls, u[i], UNSEEN).upper }

  predicate AllLower(nls: Nls, u: seq<u16>) { forall i :: 0 <= i < |u| ==> ShortInfo(nls, u[i], UNSEEN).lower }

  /** What `to_shortname_char` has noted about a stretch. */
  ghost predicate InfoIs(nls: Nls, u: seq<u16>, info: Info) {
    && (info.valid <==> Faithful(nls, u)) && (info.upper <==> AllUpper(nls, u)) && (info.lower <==> AllLower(nls, u))
  }

  lemma FaithfulStep(nls: Nls, u: seq<u16>, i: nat, info: Info)
    requires i < |u| && InfoIs(nls, u[..i], info)
    ensures InfoIs(nls, u[..i + 1], ShortInfo(nls, u[i], info))
  {
    assert u[..i + 1] == u[..i] + [u[i]];
    assert forall j :: 0 <= j < i ==> u[..i + 1][j] == u[..i][j];
    assert u[..i + 1][i] == u[i];
  }

  // ----- base and extension --------------------------------------------------------------------

  /** Where the base of the name ends and its extension starts (`|u|` is no extension): at the
      last dot, unless that ends the name or only dots and spaces stand before it. */
  predicate Divides(u: seq<u16>, sz: nat, ext: nat) {
    if sz < |u| then
      && u[sz] == 0x2E && sz + 1 < |u| && ext == sz + 1 && 0x2E !in u[sz + 1..]
      && exists i :: 0 <= i < sz && !SkipChar(u[i])
    else
      && sz == |u| == ext
      && (0x2E !in u || u[|u| - 1] == 0x2E
          || exists d :: 0 <= d < |u| && u[d] == 0x2E
                     && 0x2E !in u[d + 1..]
                     && forall i :: 0 <= i < d ==> SkipChar(u[i]))
  }

  method Divide(u: seq<u16>) returns (sz: nat, ext: nat)
    ensures Divides(u, sz, ext)
  {
    var d := |u| - 1;
    while d >= 0 && u[d] != 0x2E
      invariant -1 <= d < |u| && 0x2E !in u[d + 1..]
    {
      d := d - 1;
    }
    if d == -1 || d == |u| - 1 {
      return |u|, |u|;
    }
    var s := 0;
    while s < d && SkipChar(u[s])
      invariant 0 <= s <= d && forall i :: 0 <= i < s ==> SkipChar(u[i])
    {
      s := s + 1;
    }
    if s != d {
      return d, d + 1;
    }
    return |u|, |u|;
  }

  /** A cut of the base that falls between two characters. */
  ghost predicate WholeChars(nls: Nls, u: seq<u16>, n: nat) {
    exists j :: 0 <= j <= |u| && |Translated(nls, u[..j])| == n
  }

  /** The whole characters at the front of the stretch that have at most `most` bytes, and no more
      of them would do, have `n` bytes. */
  ghost predicate LongestWhole(nls: Nls, u: seq<u16>, most: nat, n: nat) {
    && WholeChars(nls, u, n) && n <= most
    && forall j :: 0 <= j <= |u| && |Translated(nls, u[..j])| <= most ==> |Translated(nls, u[..j])| <= n
  }

  datatype Base = Base(bytes: seq<byte>, cut6: nat, cut2: nat, whole: bool, info: Info)

  /** What the loop over the base has after `i` characters. */
  ghost predicate BaseAt(nls: Nls, u: seq<u16>, i: nat, b: Base) {
    && i <= |u| && b.bytes == Translated(nls, u[..i]) && b.whole
    && CutsOk(nls, u, |b.bytes|, b.cut6, b.cut2)
    && InfoIs(nls, u[..i], b.info)
  }

  /** The base: the first 8 bytes, cuts for the tails that split no character, and whether
      anything was left out. */
  ghost predicate BaseOf(nls: Nls, u: seq<u16>, b: Base) {
    && b.bytes <= Translated(nls, u) && |b.bytes| <= 8 && (b.bytes == Translated(nls, u) || |b.bytes| == 8)
    && CutsOk(nls, u, |b.bytes|, b.cut6, b.cut2)
    && (b.whole ==> b.bytes == Translated(nls, u))
    && (b.whole && b.info.valid <==> PartFits(nls, u, 8))
    && (b.whole && b.info.valid ==> InfoIs(nls, u, b.info))
  }

  /** The stretch has a faithful alias of at most `n` bytes. */
  predicate PartFits(nls: Nls, u: seq<u16>, n: nat) { Faithful(nls, u) && |Translated(nls, u)| <= n }

  /** The cuts of a base that has come to `n` bytes: as many whole characters as go into 6 and
      into 2 bytes. */
  ghost predicate CutsOk(nls: Nls, u: seq<u16>, n: nat, cut6: nat, cut2: nat) {
    && cut6 <= 6 && cut2 <= 2
    && (if n > 6 then LongestWhole(nls, u, 6, cut6) else cut6 == 6)
    && (if n > 2 then LongestWhole(nls, u, 2, cut2) else cut2 == 2)
  }

  /** The cuts after one more character, which takes the base to `n` bytes. */
  lemma CutsStep(nls: Nls, u: seq<u16>, i: nat, baselen: nat, n: nat, cut6: nat, cut2: nat)
    requires i < |u| && baselen == |Translated(nls, u[..i])| && CutsOk(nls, u, baselen, cut6, cut2)
    requires n == |Translated(nls, u[..i + 1])| >= baselen
    ensures CutsOk(nls, u, n,
                   if baselen < 6 && n > 6 then baselen else cut6,
                   if baselen < 2 && n > 2 then baselen else cut2)
  {
    hide Translated, LongestWhole;
    if baselen <= 6 < n {
      CutBefore(nls, u, i, 6);
    }
    if baselen <= 2 < n {
      CutBefore(nls, u, i, 2);
    }
  }

  /** The character that goes over `most` bytes is the first one left out. */
  lemma CutBefore(nls: Nls, u: seq<u16>, i: nat, most: nat)
    requires i < |u| && |Translated(nls, u[..i])| <= most < |Translated(nls, u[..i + 1])|
    ensures LongestWhole(nls, u, most, |Translated(nls, u[..i])|)
  {
    hide Translated;
    forall j | 0 <= j <= |u| && |Translated(nls, u[..j])| <= most
      ensures |Translated(nls, u[..j])| <= |Translated(nls, u[..i])|
    {
      if j <= i {
        TranslatedGrows(nls, u, j, i);
      } else {
        TranslatedGrows(nls, u, i + 1, j);
      }
    }
  }

  lemma TranslatedGrows(nls: Nls, u: seq<u16>, i: nat, j: nat)
    requires i <= j <= |u|
    ensures |Translated(nls, u[..i])| <= |Translated(nls, u[..j])|
  {
    TranslatedPrefix(nls, u[..j], i);
    assert u[..j][..i] == u[..i];
  }

  lemma {:induction false} TranslatedPrefix(nls: Nls, u: seq<u16>, i: nat)
    requires i <= |u|
    ensures Translated(nls, u[..i]) <= Translated(nls, u)
    decreases |u|
  {
    if i == |u| {
      assert u[..i] == u;
    } else {
      TranslatedPrefix(nls, u[..|u| - 1], i);
      assert u[..|u| - 1][..i] == u[..i];
    }
  }

  /** A faithful character has an alias of at least one byte. */
  lemma FaithfulLonger(nls: Nls, u: seq<u16>, i: nat)
    requires Faithful(nls, u) && i < |u|
    ensures |Translated(nls, u)| > |Translated(nls, u[..i])|
  {
    TranslatedStep(nls, u, i);
    TranslatedPrefix(nls, u, i + 1);
    assert !SkipChar(u[i]) && nls.uni2char(u[i]) != [];
  }

  lemma FullBase(nls: Nls, u: seq<u16>, i: nat, bytes: seq<byte>, chars: seq<byte>, cut6: nat, cut2: nat, info: Info)
    requires i < |u| && |bytes| < 8 <= |bytes| + |chars| && CutsOk(nls, u, |bytes| + |chars|, cut6, cut2)
    requires Translated(nls, u[..i + 1]) == bytes + chars && InfoIs(nls, u[..i + 1], info)
    ensures BaseOf(nls, u, Base(bytes + chars[..8 - |bytes|], cut6, cut2, 8 - |bytes| == |chars| && i + 1 == |u|, info))
  {
    hide AllUpper, AllLower, ShortChar, WholeChars, SkipChar;
    TranslatedPrefix(nls, u, i + 1);
    if i + 1 == |u| {
      assert u[..i + 1] == u;
    } else if Faithful(nls, u) {
      FaithfulLonger(nls, u, i + 1);
    }
  }

  /** One more character, with the cuts as the loop moves them. */
  lemma BaseOn(nls: Nls, u: seq<u16>, i: nat, b: Base, chars: seq<byte>, info: Info, cut6: nat, cut2: nat)
    requires i < |u| && BaseAt(nls, u, i, b) && |b.bytes| < 8
    requires chars == ShortChar(nls, u[i]) && info == ShortInfo(nls, u[i], b.info)
    requires cut2 == if |b.bytes| < 2 && |b.bytes| + |chars| > 2 then |b.bytes| else b.cut2
    requires cut6 == if |b.bytes| < 6 && |b.bytes| + |chars| > 6 then |b.bytes| else b.cut6
    ensures if |b.bytes| + |chars| >= 8
      then
        BaseOf(nls, u, Base(b.bytes + chars[..8 - |b.bytes|], cut6, cut2,
                             8 - |b.bytes| == |chars| && i + 1 == |u|, info))
      else BaseAt(nls, u, i + 1, Base(b.bytes + chars, cut6, cut2, true, info))
  {
    TranslatedStep(nls, u, i);
    FaithfulStep(nls, u, i, b.info);
    CutsStep(nls, u, i, |b.bytes|, |b.bytes| + |chars|, b.cut6, b.cut2);
    if |b.bytes| + |chars| >= 8 {
      FullBase(nls, u, i, b.bytes, chars, cut6, cut2, info);
    }
  }

  lemma BaseEnds(nls: Nls, u: seq<u16>, b: Base)
    requires BaseAt(nls, u, |u|, b) && |b.bytes| < 8
    ensures BaseOf(nls, u, b)
  {
    assert u[..|u|] == u;
  }

  /** The loop over the base. */
  method BuildBase(nls: Nls, u: seq<u16>) returns (b: Base)
    ensures BaseOf(nls, u, b)
  {
    hide ShortChar, ShortInfo, PartFits;
    var i := 0;
    b := Base([], 6, 2, true, UNSEEN);
    while i < |u|
      invariant 0 <= i <= |u| && BaseAt(nls, u, i, b) && |b.bytes| < 8
    {
      var chars, info := ShortChar(nls, u[i]), ShortInfo(nls, u[i], b.info);
      var baselen, chl := |b.bytes|, |chars|;
      var cut2 := if baselen < 2 && baselen + chl > 2 then baselen else b.cut2;
      var cut6 := if baselen < 6 && baselen + chl > 6 then baselen else b.cut6;
      BaseOn(nls, u, i, b, chars, info, cut6, cut2);
      if baselen + chl >= 8 {
        var fits := 8 - baselen;
        b := Base(b.bytes + chars[..fits], cut6, cut2, fits == chl && i + 1 == |u|, info);
        return;
      }
      b := Base(b.bytes + chars, cut6, cut2, true, info);
      i := i + 1;
    }
    BaseEnds(nls, u, b);
  }

  datatype Ext = Ext(bytes: seq<byte>, whole: bool, info: Info)

  /** The extension: characters as long as they fit into 3 bytes, and whether any did not. */
  ghost predicate ExtOf(nls: Nls, u: seq<u16>, e: Ext) {
    && e.bytes <= Translated(nls, u) && LongestWhole(nls, u, 3, |e.bytes|)
    && (e.whole ==> e.bytes == Translated(nls, u))
    && (e.whole && e.info.valid <==> PartFits(nls, u, 3))
    && (e.whole && e.info.valid ==> InfoIs(nls, u, e.info))
  }

  /** The loop over the extension stops at three bytes or at the end. */
  lemma ExtEnds(nls: Nls, u: seq<u16>, i: nat)
    requires i <= |u| && |Translated(nls, u[..i])| <= 3 && (|Translated(nls, u[..i])| == 3 || i == |u|)
    ensures Translated(nls, u[..i]) <= Translated(nls, u)
    ensures LongestWhole(nls, u, 3, |Translated(nls, u[..i])|)
  {
    hide Translated;
    TranslatedPrefix(nls, u, i);
    if i == |u| {
      assert u[..i] == u;
      forall j | 0 <= j <= |u| ensures |Translated(nls, u[..j])| <= |Translated(nls, u)| {
        TranslatedPrefix(nls, u, j);
      }
    }
  }

  /** The loop over the extension. */
  method BuildExt(nls: Nls, u: seq<u16>) returns (e: Ext)
    ensures ExtOf(nls, u, e)
  {
    hide ShortChar, ShortInfo, SkipChar;
    var i := 0;
    e := Ext([], true, UNSEEN);
    while |e.bytes| < 3 && i < |u|
      invariant 0 <= i <= |u| && e.bytes == Translated(nls, u[..i]) && |e.bytes| <= 3
      invariant |e.bytes| < 3 || i == |u| ==> e.whole
      invariant e.whole && |e.bytes| == 3 ==> i == |u|
      invariant InfoIs(nls, u[..i], e.info)
    {
      var chars, info := ShortChar(nls, u[i]), ShortInfo(nls, u[i], e.info);
      TranslatedStep(nls, u, i);
      FaithfulStep(nls, u, i, e.info);
      if |e.bytes| + |chars| > 3 {
        TranslatedPrefix(nls, u, i + 1);
        CutBefore(nls, u, i, 3);
        e := Ext(e.bytes, false, info);
        return;
      }
      e := Ext(e.bytes + chars, |e.bytes| + |chars| < 3 || i + 1 == |u|, info);
      i := i + 1;
    }
    assert i == |u| ==> u[..i] == u;
    ExtEnds(nls, u, i);
    if i < |u| && Faithful(nls, u) {
      FaithfulLonger(nls, u, i);
    }
  }

  // ----- the whole alias ------------------------------------------------------------------------

  /** Mount options that matter for short names. */
  datatype Options = Options(numtail: bool, win95: bool, winnt: bool)

  /** `vfat_create_shortname`: -EINVAL, -EEXIST, or a name; `alone` when it is to stand without a
      long name (the function returns 1). */
  datatype Alias = BadName | NameTaken | Alias(name: seq<byte>, alone: bool, lowerBase: bool, lowerExt: bool)

  function Joined(base: seq<byte>, ext: seq<byte>): (r: seq<byte>)
    requires |base| <= 8 && |ext| <= 3
    ensures |r| == MSDOS_NAME
  {
    Pad(base, 8) + Pad(ext, 3)
  }

  /** A name a live entry can bear: no zero, not one that reads as deleted, no blank in front. */
  predicate Storable(name: seq<byte>) {
    |name| == MSDOS_NAME && 0 !in name && name[0] != DELETED_FLAG && name[0] != SPACE
  }

  lemma JoinedStorable(base: seq<byte>, ext: seq<byte>)
    requires 1 <= |base| <= 8 && |ext| <= 3 && 0 !in base && 0 !in ext && base[0] != SPACE
    ensures Storable(Joined(StoreFirst(base), ext))
  {
    var r := Joined(StoreFirst(base), ext);
    assert r[0] == StoreFirst(base)[0];
    forall i | 0 <= i < MSDOS_NAME ensures r[i] != 0 {
      if i >= 8 {
        assert r[i] == Pad(ext, 3)[i - 8];
        if i - 8 < |ext| {
          assert Pad(ext, 3)[i - 8] == ext[i - 8];
        }
      } else if i < |base| {
        assert r[i] == StoreFirst(base)[i];
        assert base[i] != 0;
      }
    }
  }

  /** The numeric tail `~i` at `baselen`. */
  function WithNumber(name: seq<byte>, baselen: nat, i: nat): (r: seq<byte>)
    requires |name| == MSDOS_NAME && baselen <= 6 && 1 <= i <= 9
    ensures |r| == MSDOS_NAME
  {
    name[baselen := TILDE][baselen + 1 := 0x30 + i]
  }

  ghost predicate NumbersTaken(es: seq<Slot>, name: seq<byte>, baselen: nat, n: nat)
    requires |name| == MSDOS_NAME && baselen <= 6 && n <= 10
  {
    forall j :: 1 <= j < n ==> !NameFree(es, WithNumber(name, baselen, j))
  }

  /** The numbers 1 to 9, in order. */
  method NumberTail(dir: Directory, name: seq<byte>, baselen: nat) returns (done: bool, r: seq<byte>)
    requires dir.Valid() && Storable(name) && baselen <= 6
    ensures Storable(r)
    ensures done ==> NameFree(dir.entries, r)
    ensures done ==>
      exists i :: 1 <= i <= 9 && r == WithNumber(name, baselen, i) && NumbersTaken(dir.entries, name, baselen, i)
    ensures !done ==> r == WithNumber(name, baselen, 9) && NumbersTaken(dir.entries, name, baselen, 10)
  {
    var i := 1;
    r := name;
    while i < 10
      invariant 1 <= i <= 10 && Storable(r) && (i > 1 ==> r == WithNumber(name, baselen, i - 1))
      invariant i == 1 ==> r == name
      invariant NumbersTaken(dir.entries, name, baselen, i)
    {
      r := WithNumber(name, baselen, i);
      var found, off := dir.Scan(r);
      if !found {
        return true, r;
      }
      i := i + 1;
    }
    done := false;
  }

  /** The 8.3 form of a name that needs no change but of case. */
  ghost predicate FitsShort(nls: Nls, u: seq<u16>, name: seq<byte>) {
    exists sz: nat, ext: nat :: Divides(u, sz, ext) && ShortForm(nls, u, sz, ext, name)
  }

  ghost predicate ShortForm(nls: Nls, u: seq<u16>, sz: nat, ext: nat, name: seq<byte>) {
    && sz <= |u| && ext <= |u| && Faithful(nls, u[..sz]) && Faithful(nls, u[ext..])
    && |Translated(nls, u[..sz])| <= 8 && |Translated(nls, u[ext..])| <= 3
    && name == Joined(StoreFirst(Translated(nls, u[..sz])), Translated(nls, u[ext..]))
  }

  ghost predicate NoBase(nls: Nls, u: seq<u16>) {
    exists sz: nat, ext: nat :: Divides(u, sz, ext) && sz <= |u| && Translated(nls, u[..sz]) == []
  }

  /** The alias is made of the base and the extension of the name: it is just these if both parts
      need no change but of case, or if tails are not asked for and it is free; otherwise it has
      the first free tail. */
  ghost predicate MadeFrom(
    es: seq<Slot>, nls: Nls, opts: Options, u: seq<u16>, sz: nat, ext: nat, b: Base, e: Ext, jiffies: int,
    name: seq<byte>)
  {
    && sz <= |u| && ext <= |u| && BaseOf(nls, u[..sz], b) && ExtOf(nls, u[ext..], e) && b.bytes != []
    && (if NoTail(es, opts, PartFits(nls, u[..sz], 8) && PartFits(nls, u[ext..], 3), b, e)
        then name == Plain(b, e)
        else FirstTail(es, CutName(Plain(b, e), |b.bytes|, 6), CutLen(|b.bytes|, 6, b.cut6), b.cut2, jiffies, name))
  }

  /** Base and extension put together. */
  function Plain(b: Base, e: Ext): (r: seq<byte>)
    requires |b.bytes| <= 8 && |e.bytes| <= 3
    ensures |r| == MSDOS_NAME
  {
    Joined(StoreFirst(b.bytes), e.bytes)
  }

  ghost predicate NoTail(es: seq<Slot>, opts: Options, fits: bool, b: Base, e: Ext)
    requires |b.bytes| <= 8 && |e.bytes| <= 3
  {
    fits || (!opts.numtail && NameFree(es, Plain(b, e)))
  }

  /** Does a name of this base and extension need no long slots? */
  predicate StandsAlone(nls: Nls, opts: Options, base: seq<u16>, ext: seq<u16>) {
    && PartFits(nls, base, 8) && PartFits(nls, ext, 3)
    && (if opts.win95 then AllUpper(nls, base) && AllUpper(nls, ext)
        else (AllUpper(nls, base) || AllLower(nls, base)) && (AllUpper(nls, ext) || AllLower(nls, ext)))
  }

  /** Is this part of such a name to be shown in lower case? */
  predicate LowerPart(nls: Nls, opts: Options, part: seq<u16>) {
    !opts.win95 && !AllUpper(nls, part) && AllLower(nls, part)
  }

  /** The alias for base `u[..sz]` and extension `u[ext..]`: its bytes, whether it stands alone, and
      its case flags. */
  ghost predicate AliasFor(
    es: seq<Slot>, nls: Nls, opts: Options, u: seq<u16>, jiffies: int, sz: nat, ext: nat, a: Alias)
  {
    && a.Alias? && sz <= |u| && ext <= |u|
    && (a.alone <==> StandsAlone(nls, opts, u[..sz], u[ext..]))
    && (a.alone ==> ShortForm(nls, u, sz, ext, a.name))
    && (a.lowerBase <==> a.alone && LowerPart(nls, opts, u[..sz]))
    && (a.lowerExt <==> a.alone && LowerPart(nls, opts, u[ext..]))
    && exists b, e :: MadeFrom(es, nls, opts, u, sz, ext, b, e, jiffies, a.name)
  }

  /** What `vfat_create_shortname` promises its caller. */
  ghost predicate AliasOk(es: seq<Slot>, nls: Nls, opts: Options, u: seq<u16>, jiffies: int, a: Alias) {
    match a
    case BadName => NoBase(nls, u)
    case NameTaken => exists name :: FitsShort(nls, u, name) && |name| == MSDOS_NAME && !NameFree(es, name)
    case Alias(name, _, _, _) =>
      && Storable(name) && NameFree(es, name)
      && exists sz: nat, ext: nat :: Divides(u, sz, ext) && AliasFor(es, nls, opts, u, jiffies, sz, ext, a)
  }

  lemma BaseStorable(nls: Nls, u: seq<u16>, sz: nat, ext: nat, b: Base, e: Ext)
    requires NlsOk(nls) && 0 !in u && sz <= |u| && ext <= |u|
    requires BaseOf(nls, u[..sz], b) && ExtOf(nls, u[ext..], e) && b.bytes != []
    ensures Storable(Joined(StoreFirst(b.bytes), e.bytes))
  {
    TranslatedNonzero(nls, u[..sz]);
    PrefixNonzero(b.bytes, Translated(nls, u[..sz]));
    NoBlankFirst(nls, u[..sz]);
    assert b.bytes[0] == Translated(nls, u[..sz])[0];
    TranslatedNonzero(nls, u[ext..]);
    PrefixNonzero(e.bytes, Translated(nls, u[ext..]));
    JoinedStorable(b.bytes, e.bytes);
  }

  /** No alias starts with a blank. */
  lemma {:induction false} NoBlankFirst(nls: Nls, u: seq<u16>)
    requires NlsOk(nls) && Translated(nls, u) != []
    ensures Translated(nls, u)[0] != SPACE
    decreases |u|
  {
    var w := u[|u| - 1];
    if Translated(nls, u[..|u| - 1]) != [] {
      NoBlankFirst(nls, u[..|u| - 1]);
    } else {
      assert ShortChar(nls, w)[0] != SPACE;
    }
  }

  lemma PrefixNonzero(a: seq<byte>, b: seq<byte>)
    requires a <= b && 0 !in b
    ensures 0 !in a
  {
    forall x | x in a ensures x in b {
      var i :| 0 <= i < |a| && a[i] == x;
      assert b[i] == x;
    }
  }

  lemma SetByte(name: seq<byte>, i: nat, c: byte)
    requires Storable(name) && i < MSDOS_NAME && c != 0 && c != DELETED_FLAG && (c != SPACE || i > 0)
    ensures Storable(name[i := c])
  {
  }

  /** The name with room for a tail behind `cut` bytes when the base is longer than `most`. */
  function CutLen(baselen: nat, most: nat, cut: nat): nat { if baselen > most then cut else baselen }

  function CutName(name: seq<byte>, baselen: nat, most: nat): (r: seq<byte>)
    requires |name| == MSDOS_NAME
    ensures |r| == MSDOS_NAME
  {
    if baselen > most then name[7 := SPACE] else name
  }

  /** What hexadecimal tails go into: the last name tried, with `~` and a digit from the clock. */
  function HexName(name: seq<byte>, len6: nat, cut2: nat, jiffies: int): (r: seq<byte>)
    requires |name| == MSDOS_NAME && len6 <= 6 && cut2 <= 2
    ensures |r| == MSDOS_NAME
  {
    var len := CutLen(len6, 2, cut2);
    CutName(WithNumber(name, len6, 9), len6, 2)[len + 4 := TILDE][len + 5 := 0x31 + jiffies / 0x1_0000 % 8]
  }

  /** The first free name in the order of the tails: 1 to 9, then the hexadecimal ones. */
  ghost predicate FirstTail(es: seq<Slot>, name: seq<byte>, len6: nat, cut2: nat, jiffies: int, r: seq<byte>) {
    && |name| == MSDOS_NAME && len6 <= 6 && cut2 <= 2
    && ((exists i :: 1 <= i <= 9 && r == WithNumber(name, len6, i) && NumbersTaken(es, name, len6, i))
        || (NumbersTaken(es, name, len6, 10)
            && exists k: nat ::
                 && k < TAILS
                 && HexTailIs(es, HexName(name, len6, cut2, jiffies), CutLen(len6, 2, cut2), jiffies, k, r)))
  }

  ghost predicate HexTailIs(es: seq<Slot>, name: seq<byte>, baselen: nat, jiffies: int, k: nat, r: seq<byte>) {
    && |name| == MSDOS_NAME && baselen + 4 <= MSDOS_NAME
    && r == WithTail(name, baselen, TailAt(jiffies, k)) && NoneFree(es, name, baselen, jiffies, k)
  }

  // ----- the tails byte by byte ---------------------------------------------------------------

  /** The bytes of a name with the number `i` behind `len6` bytes of its base; a base longer than six bytes
      has a blank at its end. */
  ghost predicate NumberLaidOut(name: seq<byte>, baselen: nat, len6: nat, i: nat, r: seq<byte>) {
    && |name| == |r| == MSDOS_NAME && len6 <= 6 && 1 <= i <= 9
    && r[len6] == '~' as int && r[len6 + 1] == '0' as int + i
    && forall j :: 0 <= j < MSDOS_NAME && j != len6 && j != len6 + 1 ==>
         r[j] == if j == 7 && baselen > 6 then SPACE else name[j]
  }

  predicate HexByte(c: byte, d: nat) {
    c == if d < 10 then '0' as int + d else 'A' as int + (d - 10)
  }

  /** From `at` on stand the four digits of `t`. */
  predicate HexDigits4(r: seq<byte>, at: nat, t: nat) {
    && at + 4 <= |r|
    && HexByte(r[at], t / 4096) && HexByte(r[at + 1], t / 256 % 16)
    && HexByte(r[at + 2], t / 16 % 16) && HexByte(r[at + 3], t % 16)
  }

  /** The bytes of a name with the tail of step `k`: behind at most two bytes of the base four digits of the
      clock less 11 for each step, a tilde, and a digit from bits 16 to 18 of the clock. What is left of the
      eight bytes is what the last number left there, and a blank at the end if the base was cut. */
  ghost predicate HexLaidOut(
    name: seq<byte>, baselen: nat, len6: nat, cut2: nat, jiffies: int, k: nat, r: seq<byte>)
  {
    var len, t := if len6 > 2 then cut2 else len6, (jiffies - 11 * k) % 0x1_0000;
    && |name| == |r| == MSDOS_NAME && len <= 2 && r[..len] == name[..len]
    && HexDigits4(r, len, t)
    && r[len + 4] == '~' as int && r[len + 5] == '1' as int + jiffies / 0x1_0000 % 8
    && (forall j :: len + 6 <= j < 8 ==>
          r[j] == if j == 7 && (baselen > 6 || len6 > 2) then SPACE
                  else if j == len6 then '~' as int else if j == len6 + 1 then '9' as int else name[j])
    && r[8..] == name[8..]
  }

  lemma NumberIs(name: seq<byte>, baselen: nat, len6: nat, i: nat, r: seq<byte>)
    requires |name| == MSDOS_NAME && len6 <= 6 && 1 <= i <= 9
    ensures NumberLaidOut(name, baselen, len6, i, r) <==> r == WithNumber(CutName(name, baselen, 6), len6, i)
  {
    var n := WithNumber(CutName(name, baselen, 6), len6, i);
    assert NumberLaidOut(name, baselen, len6, i, n);
    if NumberLaidOut(name, baselen, len6, i, r) {
      assert forall j :: 0 <= j < MSDOS_NAME ==> r[j] == n[j];
    }
  }

  lemma HexIs(name: seq<byte>, baselen: nat, len6: nat, cut2: nat, jiffies: int, k: nat, r: seq<byte>)
    requires |name| == MSDOS_NAME && len6 <= 6 && cut2 <= 2
    ensures HexLaidOut(name, baselen, len6, cut2, jiffies, k, r)
      <==> r == WithTail(HexName(CutName(name, baselen, 6), len6, cut2, jiffies), CutLen(len6, 2, cut2),
                         TailAt(jiffies, k))
  {
    hide HexName, WithTail, HexDigits4;
    var h, len := HexName(CutName(name, baselen, 6), len6, cut2, jiffies), CutLen(len6, 2, cut2);
    var n, t := WithTail(h, len, TailAt(jiffies, k)), TailAt(jiffies, k) % TAILS;
    HexNameBytes(name, baselen, len6, cut2, jiffies);
    TailBytes(h, len, TailAt(jiffies, k));
    if HexLaidOut(name, baselen, len6, cut2, jiffies, k, r) {
      SameDigits(r, n, len, t);
      forall x | 0 <= x < MSDOS_NAME ensures r[x] == n[x] {
        if x < len {
          assert r[x] == r[..len][x] && n[x] == n[..len][x];
        } else if x >= 8 {
          assert r[x] == r[8..][x - 8] && h[x] == h[8..][x - 8];
        }
      }
    }
  }

  /** What the name holds before the digits are put into it. */
  lemma HexNameBytes(name: seq<byte>, baselen: nat, len6: nat, cut2: nat, jiffies: int)
    requires |name| == MSDOS_NAME && len6 <= 6 && cut2 <= 2
    ensures var h, len := HexName(CutName(name, baselen, 6), len6, cut2, jiffies), CutLen(len6, 2, cut2);
      && h[..len] == name[..len] && h[8..] == name[8..]
      && h[len + 4] == TILDE && h[len + 5] == 0x31 + jiffies / 0x1_0000 % 8
      && forall j :: len + 6 <= j < 8 ==>
           h[j] == if j == 7 && (baselen > 6 || len6 > 2) then SPACE
                   else if j == len6 then TILDE else if j == len6 + 1 then 0x39 else name[j]
  {
  }

  lemma TailBytes(h: seq<byte>, len: nat, i: int)
    requires |h| == MSDOS_NAME && len + 4 <= MSDOS_NAME
    ensures var n := WithTail(h, len, i);
      n[..len] == h[..len] && HexDigits4(n, len, i % TAILS) && forall j :: len + 4 <= j < MSDOS_NAME ==> n[j] == h[j]
  {
    var n := WithTail(h, len, i);
    var d := n[len..len + 4];
    assert n[len] == d[0] && n[len + 1] == d[1] && n[len + 2] == d[2] && n[len + 3] == d[3];
  }

  lemma SameDigits(r: seq<byte>, n: seq<byte>, len: nat, t: nat)
    requires t < TAILS && HexDigits4(r, len, t) && HexDigits4(n, len, t)
    ensures forall j :: len <= j < len + 4 ==> r[j] == n[j]
  {
  }

  /** The names tried before the number `i`, and those before step `k`, are taken. */
  ghost predicate NumbersTried(es: seq<Slot>, name: seq<byte>, baselen: nat, len6: nat, i: nat) {
    forall j: nat, x :: j < i && NumberLaidOut(name, baselen, len6, j, x) ==> !NameFree(es, x)
  }

  ghost predicate HexTried(
    es: seq<Slot>, name: seq<byte>, baselen: nat, len6: nat, cut2: nat, jiffies: int, k: nat)
  {
    forall j: nat, x :: j < k && HexLaidOut(name, baselen, len6, cut2, jiffies, j, x) ==> !NameFree(es, x)
  }

  /** The first free name of these, in this order. */
  ghost predicate FirstLaidOut(
    es: seq<Slot>, name: seq<byte>, baselen: nat, len6: nat, cut2: nat, jiffies: int, r: seq<byte>)
  {
    || (exists i: nat :: NumberLaidOut(name, baselen, len6, i, r) && NumbersTried(es, name, baselen, len6, i))
    || (NumbersTried(es, name, baselen, len6, 10)
        && exists k: nat :: HexLaidOut(name, baselen, len6, cut2, jiffies, k, r)
             && HexTried(es, name, baselen, len6, cut2, jiffies, k))
  }

  /** The tails byte by byte are the tails. */
  lemma TailsLaidOut(
    es: seq<Slot>, name: seq<byte>, baselen: nat, len6: nat, cut2: nat, jiffies: int, r: seq<byte>)
    requires |name| == MSDOS_NAME && len6 <= 6 && cut2 <= 2
    requires FirstTail(es, CutName(name, baselen, 6), len6, cut2, jiffies, r)
    ensures FirstLaidOut(es, name, baselen, len6, cut2, jiffies, r)
  {
    hide NameFree, NumberLaidOut, HexLaidOut, WithTail, HexName, TailAt;
    var name6 := CutName(name, baselen, 6);
    if i :| 1 <= i <= 9 && r == WithNumber(name6, len6, i) && NumbersTaken(es, name6, len6, i) {
      NumberIs(name, baselen, len6, i, r);
      NumbersLaidOut(es, name, baselen, len6, i);
    } else {
      NumbersLaidOut(es, name, baselen, len6, 10);
      var hex, len := HexName(name6, len6, cut2, jiffies), CutLen(len6, 2, cut2);
      var k: nat :| k < TAILS && HexTailIs(es, hex, len, jiffies, k, r);
      HexIs(name, baselen, len6, cut2, jiffies, k, r);
      forall j: nat, x | j < k && HexLaidOut(name, baselen, len6, cut2, jiffies, j, x)
        ensures |x| == MSDOS_NAME && !NameFree(es, x)
      {
        HexIs(name, baselen, len6, cut2, jiffies, j, x);
        assert !TailFree(es, hex, len, jiffies, j);
      }
    }
  }

  lemma NumbersLaidOut(es: seq<Slot>, name: seq<byte>, baselen: nat, len6: nat, i: nat)
    requires |name| == MSDOS_NAME && len6 <= 6 && i <= 10 && NumbersTaken(es, CutName(name, baselen, 6), len6, i)
    ensures NumbersTried(es, name, baselen, len6, i)
  {
    hide NameFree, WithNumber;
    forall j: nat, x | j < i && NumberLaidOut(name, baselen, len6, j, x) ensures !NameFree(es, x) {
      NumberIs(name, baselen, len6, j, x);
    }
  }

  /** Base and extension side by side, each filled up with blanks; a 0xE5 in front is stored as 0x05. */
  ghost predicate SideBySide(base: seq<byte>, ext: seq<byte>, r: seq<byte>) {
    && |r| == MSDOS_NAME && |base| <= 8 && |ext| <= 3
    && (forall i :: 0 <= i < 8 ==>
          r[i] == if i >= |base| then 0x20 else if i == 0 && base[0] == 0xE5 then 0x05 else base[i])
    && (forall i :: 0 <= i < 3 ==> r[8 + i] == if i < |ext| then ext[i] else 0x20)
  }

  lemma PlainBytes(b: Base, e: Ext)
    requires |b.bytes| <= 8 && |e.bytes| <= 3
    ensures SideBySide(b.bytes, e.bytes, Plain(b, e))
  {
    var r, st := Plain(b, e), StoreFirst(b.bytes);
    assert r[..8] == Pad(st, 8) && r[8..] == Pad(e.bytes, 3);
    forall i | 0 <= i < 8 ensures r[i] ==
      if i >= |b.bytes| then 0x20 else if i == 0 && b.bytes[0] == 0xE5 then 0x05 else b.bytes[i]
    {
      assert r[i] == r[..8][i];
      assert i < |st| ==> Pad(st, 8)[i] == Pad(st, 8)[..|st|][i];
    }
    forall i | 0 <= i < 3 ensures r[8 + i] == if i < |e.bytes| then e.bytes[i] else 0x20 {
      assert r[8 + i] == r[8..][i];
      assert i < |e.bytes| ==> Pad(e.bytes, 3)[i] == Pad(e.bytes, 3)[..|e.bytes|][i];
    }
  }

  /** When an alias has a tail: not if both parts are 8.3 as they stand; else always with `numtail`, and
      without it if the name without a tail is taken. */
  lemma WhichTail(
    es: seq<Slot>, nls: Nls, opts: Options, u: seq<u16>, sz: nat, ext: nat, b: Base, e: Ext, jiffies: int,
    name: seq<byte>)
    requires MadeFrom(es, nls, opts, u, sz, ext, b, e, jiffies, name)
    ensures |b.bytes| <= 8 && |e.bytes| <= 3 && b.cut6 <= 6 && b.cut2 <= 2
    ensures var plain := Plain(b, e);
      if PartFits(nls, u[..sz], 8) && PartFits(nls, u[ext..], 3) then name == plain
      else if opts.numtail || !NameFree(es, plain)
      then FirstLaidOut(es, plain, |b.bytes|, if |b.bytes| > 6 then b.cut6 else |b.bytes|, b.cut2, jiffies, name)
      else name == plain
  {
    hide BaseOf, ExtOf, FirstTail, FirstLaidOut, NameFree, PartFits;
    PartsShort(nls, u, sz, ext, b, e);
    var plain := Plain(b, e);
    if name != plain || (!(PartFits(nls, u[..sz], 8) && PartFits(nls, u[ext..], 3))
      && (opts.numtail || !NameFree(es, plain)))
    {
      TailsLaidOut(es, plain, |b.bytes|, CutLen(|b.bytes|, 6, b.cut6), b.cut2, jiffies, name);
    }
  }

  /** The tails: a number behind at most 6 bytes of the base, then hexadecimal digits behind at
      most 2. */
  method UniqueTail(dir: Directory, name: seq<byte>, baselen: nat, b: Base, jiffies: int) returns (r: seq<byte>)
    requires dir.Valid() && Storable(name) && 1 <= baselen <= 8 && b.cut6 <= 6 && b.cut2 <= 2
    requires |Names(dir.entries)| < TAILS
    ensures Storable(r) && NameFree(dir.entries, r)
    ensures FirstTail(dir.entries, CutName(name, baselen, 6), CutLen(baselen, 6, b.cut6), b.cut2, jiffies, r)
    ensures FirstLaidOut(dir.entries, name, baselen, if baselen > 6 then b.cut6 else baselen, b.cut2, jiffies, r)
  {
    hide FirstLaidOut;
    r := FindTail(dir, name, baselen, b, jiffies);
    TailsLaidOut(dir.entries, name, baselen, CutLen(baselen, 6, b.cut6), b.cut2, jiffies, r);
  }

  method FindTail(dir: Directory, name: seq<byte>, baselen: nat, b: Base, jiffies: int) returns (r: seq<byte>)
    requires dir.Valid() && Storable(name) && 1 <= baselen <= 8 && b.cut6 <= 6 && b.cut2 <= 2
    requires |Names(dir.entries)| < TAILS
    ensures Storable(r) && NameFree(dir.entries, r)
    ensures FirstTail(dir.entries, CutName(name, baselen, 6), CutLen(baselen, 6, b.cut6), b.cut2, jiffies, r)
  {
    hide NameFree, Names, TailFree;
    var len := baselen;
    r := name;
    if len > 6 {
      len := b.cut6;
      SetByte(r, 7, SPACE);
      r := r[7 := SPACE];
    }
    ghost var len6, name6 := len, r;
    var done;
    done, r := NumberTail(dir, r, len);
    if done {
      return;
    }
    if len > 2 {
      len := b.cut2;
      SetByte(r, 7, SPACE);
      r := r[7 := SPACE];
    }
    SetByte(r, len + 4, TILDE);
    var sz := jiffies / 0x1_0000 % 8;
    SetByte(r[len + 4 := TILDE], len + 5, 0x31 + sz);
    ghost var k;
    r := r[len + 4 := TILDE][len + 5 := 0x31 + sz];
    ghost var was := r;
    assert was == HexName(name6, len6, b.cut2, jiffies);
    ghost var free := SomeTailFree(dir.entries, r, len, jiffies);
    SearchEnds(dir.entries, r, len, jiffies);
    r, k := HexTail(dir, r, len, jiffies);
    assert HexTailIs(dir.entries, was, len, jiffies, k, r);
    TailStorable(was, len, TailAt(jiffies, k));
  }

  lemma TailStorable(name: seq<byte>, baselen: nat, i: int)
    requires Storable(name) && baselen + 4 <= MSDOS_NAME
    ensures Storable(WithTail(name, baselen, i))
  {
    var r := WithTail(name, baselen, i);
    if baselen == 0 {
      assert r[0] == r[baselen..baselen + 4][0] == Hex4(i % TAILS)[0];
    } else {
      assert r[0] == name[0];
    }
  }

  lemma DividesInside(u: seq<u16>, sz: nat, ext: nat)
    requires Divides(u, sz, ext)
    ensures sz <= |u| && ext <= |u|
  {
  }

  lemma BaseMissing(nls: Nls, u: seq<u16>, sz: nat, ext: nat, b: Base)
    requires Divides(u, sz, ext) && sz <= |u| && BaseOf(nls, u[..sz], b) && |b.bytes| == 0
    ensures NoBase(nls, u)
  {
  }

  lemma PartsShort(nls: Nls, u: seq<u16>, sz: nat, ext: nat, b: Base, e: Ext)
    requires sz <= |u| && ext <= |u| && BaseOf(nls, u[..sz], b) && ExtOf(nls, u[ext..], e)
    ensures |b.bytes| <= 8 && |e.bytes| <= 3 && b.cut6 <= 6 && b.cut2 <= 2
  {
  }

  /** A base and an extension that are whole and faithful give the 8.3 form of the name. */
  lemma PlainFits(nls: Nls, u: seq<u16>, sz: nat, ext: nat, b: Base, e: Ext, name: seq<byte>)
    requires Divides(u, sz, ext) && sz <= |u| && ext <= |u| && BaseOf(nls, u[..sz], b) && ExtOf(nls, u[ext..], e)
    requires b.whole && e.whole && b.info.valid && e.info.valid && |b.bytes| <= 8 && |e.bytes| <= 3
    requires name == Joined(StoreFirst(b.bytes), e.bytes)
    ensures FitsShort(nls, u, name)
  {
    hide Divides, InfoIs, CutsOk, Faithful, Translated, Joined, StoreFirst;
    assert ShortForm(nls, u, sz, ext, name);
  }

  /** What the two loops say about the parts: whether both fit. */
  lemma FitsBoth(nls: Nls, u: seq<u16>, sz: nat, ext: nat, b: Base, e: Ext)
    requires sz <= |u| && ext <= |u| && BaseOf(nls, u[..sz], b) && ExtOf(nls, u[ext..], e)
    ensures b.whole && e.whole && b.info.valid && e.info.valid
      <==> PartFits(nls, u[..sz], 8) && PartFits(nls, u[ext..], 3)
  {
  }

  lemma PlainMade(
    es: seq<Slot>, nls: Nls, opts: Options, u: seq<u16>, sz: nat, ext: nat, b: Base, e: Ext, jiffies: int,
    name: seq<byte>)
    requires sz <= |u| && ext <= |u| && BaseOf(nls, u[..sz], b) && ExtOf(nls, u[ext..], e) && b.bytes != []
    requires |b.bytes| <= 8 && |e.bytes| <= 3 && name == Joined(StoreFirst(b.bytes), e.bytes)
    requires (b.whole && e.whole && b.info.valid && e.info.valid) || (!opts.numtail && NameFree(es, name))
    ensures MadeFrom(es, nls, opts, u, sz, ext, b, e, jiffies, name)
  {
    hide BaseOf, ExtOf, FirstTail, NameFree, PartFits;
    FitsBoth(nls, u, sz, ext, b, e);
  }

  lemma TailMade(
    es: seq<Slot>, nls: Nls, opts: Options, u: seq<u16>, sz: nat, ext: nat, b: Base, e: Ext, jiffies: int,
    plain: seq<byte>, name: seq<byte>)
    requires sz <= |u| && ext <= |u| && BaseOf(nls, u[..sz], b) && ExtOf(nls, u[ext..], e) && b.bytes != []
    requires |b.bytes| <= 8 && |e.bytes| <= 3 && plain == Joined(StoreFirst(b.bytes), e.bytes)
    requires !(b.whole && e.whole && b.info.valid && e.info.valid) && (opts.numtail || !NameFree(es, plain))
    requires FirstTail(es, CutName(plain, |b.bytes|, 6), CutLen(|b.bytes|, 6, b.cut6), b.cut2, jiffies, name)
    ensures MadeFrom(es, nls, opts, u, sz, ext, b, e, jiffies, name)
  {
    hide BaseOf, ExtOf, FirstTail, NameFree, PartFits;
    FitsBoth(nls, u, sz, ext, b, e);
  }

  /** The alias that the case information of both parts gives. */
  lemma AliasMade(
    es: seq<Slot>, nls: Nls, opts: Options, u: seq<u16>, jiffies: int, sz: nat, ext: nat, b: Base, e: Ext, a: Alias)
    requires Divides(u, sz, ext) && sz <= |u| && ext <= |u| && BaseOf(nls, u[..sz], b) && ExtOf(nls, u[ext..], e)
    requires a.Alias? && MadeFrom(es, nls, opts, u, sz, ext, b, e, jiffies, a.name)
    requires var fits := b.whole && e.whole && b.info.valid && e.info.valid;
      && (fits ==> |b.bytes| <= 8 && |e.bytes| <= 3 && a.name == Joined(StoreFirst(b.bytes), e.bytes))
      && (a.alone <==> fits && (if opts.win95 then b.info.upper && e.info.upper
          else (b.info.upper || b.info.lower) && (e.info.upper || e.info.lower)))
      && (a.lowerBase <==> a.alone && !opts.win95 && !b.info.upper && b.info.lower)
      && (a.lowerExt <==> a.alone && !opts.win95 && !e.info.upper && e.info.lower)
    ensures AliasFor(es, nls, opts, u, jiffies, sz, ext, a)
  {
    hide Divides, MadeFrom, CutsOk, Faithful, Translated, Joined, StoreFirst, AllUpper, AllLower;
  }

  /** `vfat_create_shortname`: in a directory with fewer than 65536 live names it always ends, and
      a name it returns is not in the directory. */
  method CreateShortname(dir: Directory, nls: Nls, u: seq<u16>, opts: Options, jiffies: int) returns (a: Alias)
    requires dir.Valid() && NlsOk(nls) && 0 !in u && (opts.win95 || opts.winnt)
    requires |Names(dir.entries)| < TAILS
    ensures AliasOk(dir.entries, nls, opts, u, jiffies, a)
  {
    hide FitsShort, MadeFrom, AliasFor, NameFree, Names, NoBase, ShortForm, Divides, BaseOf, ExtOf, Storable, Joined;
    var sz, ext := Divide(u);
    DividesInside(u, sz, ext);
    var b := BuildBase(nls, u[..sz]);
    if |b.bytes| == 0 {
      BaseMissing(nls, u, sz, ext, b);
      return BadName;
    }
    var e := BuildExt(nls, u[ext..]);
    PartsShort(nls, u, sz, ext, b, e);
    var name := Joined(StoreFirst(b.bytes), e.bytes);
    BaseStorable(nls, u, sz, ext, b, e);
    if b.whole && e.whole && b.info.valid && e.info.valid {
      PlainFits(nls, u, sz, ext, b, e, name);
      var found, off := dir.Scan(name);
      if found {
        return NameTaken;
      }
      PlainMade(dir.entries, nls, opts, u, sz, ext, b, e, jiffies, name);
      a := Alias(name, false, false, false);
      if opts.win95 {
        a := Alias(name, b.info.upper && e.info.upper, false, false);
      } else if (b.info.upper || b.info.lower) && (e.info.upper || e.info.lower) {
        a := Alias(name, true, !b.info.upper && b.info.lower, !e.info.upper && e.info.lower);
      }
      AliasMade(dir.entries, nls, opts, u, jiffies, sz, ext, b, e, a);
      return;
    }
    a := Alias(name, false, false, false);
    if !opts.numtail {
      var found, off := dir.Scan(name);
      if !found {
        PlainMade(dir.entries, nls, opts, u, sz, ext, b, e, jiffies, name);
        AliasMade(dir.entries, nls, opts, u, jiffies, sz, ext, b, e, a);
        return;
      }
    }
    var unique := UniqueTail(dir, name, |b.bytes|, b, jiffies);
    TailMade(dir.entries, nls, opts, u, sz, ext, b, e, jiffies, name, unique);
    a := Alias(unique, false, false, false);
    AliasMade(dir.entries, nls, opts, u, jiffies, sz, ext, b, e, a);
  }
}
