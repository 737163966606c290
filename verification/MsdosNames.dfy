/** Names of an MS-DOS mount (namei_msdos.c `msdos_format_name`) and how an entry's name is shown
    (dir.c `fat_parse_short`, single-byte code page, not VFAT). */
module MsdosNames {
  import opened Arithmetic
  import opened EntryCodec
  import opened DirSlots
  import opened NameBytes

  const DOT: byte := 0x2E

  datatype Check = Relaxed | Normal | Strict

  datatype Options = Options(check: Check, nocase: bool, dotsOK: bool)

  datatype Formatted = Refused | Name(res: seq<byte>)

  /** `strchr(bad_chars, c)`; a zero is found too. */
  predicate Bad(c: byte) { c == 0x2A || c == 0x3F || c == 0x3C || c == 0x3E || c == 0x7C || c == 0x22 || c == 0 }

  predicate BadIfStrict(c: byte) { c == 0x2B || c == 0x3D || c == 0x2C || c == 0x3B || c == 0x20 || c == 0 }

  predicate UpperCase(c: byte) { 0x41 <= c <= 0x5A }

  /** The tests every character before a dot, and of the extension, must pass. */
  predicate CharOk(o: Options, c: byte) {
    && !(o.check != Relaxed && Bad(c)) && !(o.check == Strict && (BadIfStrict(c) || UpperCase(c)))
    && c >= 0x20 && c != 0x3A && c != 0x5C
  }

  /** How a character is stored, and how it is shown. */
  function Up(o: Options, c: byte): byte { if !o.nocase && 0x61 <= c <= 0x7A then c - 32 else c }

  function Down(o: Options, c: byte): byte { if !o.nocase && UpperCase(c) then c + 32 else c }

  function UpAll(o: Options, s: seq<byte>): (r: seq<byte>)
    ensures |r| == |s| && forall i :: 0 <= i < |s| ==> r[i] == Up(o, s[i])
  {
    seq(|s|, i requires 0 <= i < |s| => Up(o, s[i]))
  }

  function DownAll(o: Options, s: seq<byte>): (r: seq<byte>)
    ensures |r| == |s| && forall i :: 0 <= i < |s| ==> r[i] == Down(o, s[i])
  {
    seq(|s|, i requires 0 <= i < |s| => Down(o, s[i]))
  }

  /** The part of the name before its first dot, or all of it. */
  function ToDot(s: seq<byte>): (r: nat)
    ensures r <= |s| && DOT !in s[..r] && (r < |s| ==> s[r] == DOT)
    decreases |s|
  {
    if |s| == 0 || s[0] == DOT then 0 else
      assert forall x :: x in s[..ToDot(s[1..]) + 1] ==> x == s[0] || x in s[1..][..ToDot(s[1..])];
      ToDot(s[1..]) + 1
  }

  /** A part of a name that may be stored: all its characters pass, and it ends in no blank. */
  predicate PartOk(o: Options, s: seq<byte>) {
    (forall i :: 0 <= i < |s| ==> CharOk(o, s[i]) && s[i] != DOT) && (|s| > 0 ==> s[|s| - 1] != SPACE)
  }

  function BaseOf(s: seq<byte>): seq<byte> { s[..Min(8, ToDot(s))] }

  function AfterDot(s: seq<byte>): seq<byte> { if ToDot(s) < |s| then s[ToDot(s) + 1..] else [] }

  function ExtOf(s: seq<byte>): seq<byte> { AfterDot(s)[..Min(3, ToDot(AfterDot(s)))] }

  /** A strict name has at most 8 characters before its dot and at most 3 behind, and one dot. */
  predicate StrictShape(s: seq<byte>) { ToDot(s) <= 8 && ExtOf(s) == AfterDot(s) }

  function Stored(o: Options, base: seq<byte>, ext: seq<byte>): (r: seq<byte>)
    requires |base| <= 8 && |ext| <= 3
    ensures |r| == MSDOS_NAME
  {
    Pad(UpAll(o, StoreFirst(base)), 8) + Pad(UpAll(o, ext), 3)
  }

  /** What a name formats to (behind the dot of a hidden name). */
  function FormatPlain(o: Options, s: seq<byte>): Formatted {
    if BaseOf(s) != [] && PartOk(o, BaseOf(s)) && PartOk(o, ExtOf(s)) && (o.check == Strict ==> StrictShape(s))
    then Name(Stored(o, BaseOf(s), ExtOf(s)))
    else Refused
  }

  /** `msdos_format_name`. */
  function Format(o: Options, name: seq<byte>): Formatted
    requires name != []
  {
    if name[0] == DOT then (if o.dotsOK then FormatPlain(o, name[1..]) else Refused) else FormatPlain(o, name)
  }

  // ----- showing ----------------------------------------------------------------------------

  /** Without the blanks at its end. */
  function Trim(s: seq<byte>): (r: seq<byte>)
    ensures r <= s && (|r| > 0 ==> r[|r| - 1] != SPACE)
    ensures forall i :: |r| <= i < |s| ==> s[i] == SPACE
    decreases |s|
  {
    if |s| == 0 || s[|s| - 1] != SPACE then s else Trim(s[..|s| - 1])
  }

  /** The part of a field before its first zero byte. */
  function UpToNul(s: seq<byte>): (r: seq<byte>)
    ensures r <= s && 0 !in r && (|r| < |s| ==> s[|r|] == 0)
    decreases |s|
  {
    if |s| == 0 || s[0] == 0 then [] else
      var r := UpToNul(s[1..]);
      assert forall i :: 0 <= i < |r| ==> r[i] == s[1..][i] == s[1 + i];
      [s[0]] + r
  }

  lemma NoNul(s: seq<byte>)
    requires 0 !in s
    ensures UpToNul(s) == s
  {
    var r := UpToNul(s);
    assert s[..|r|] == r;
    assert |r| == |s|;
  }

  /** Base and extension as one text. */
  function Glue(dot: bool, base: seq<byte>, ext: seq<byte>): seq<byte> {
    if base == [] && ext == [] then []
    else (if dot then [DOT] else []) + (base + (if ext == [] then [] else [DOT] + ext))
  }

  function ShowField(o: Options, s: seq<byte>): seq<byte> { DownAll(o, Trim(UpToNul(s))) }

  /** `fat_parse_short`; `dot` for a hidden entry that is shown so. */
  function Show(o: Options, dot: bool, res: seq<byte>): seq<byte>
    requires |res| == MSDOS_NAME
  {
    Glue(dot, ShowField(o, ShowFirst(res)[..8]), ShowField(o, ShowFirst(res)[8..]))
  }

  // ----- the two agree -------------------------------------------------------------------------

  lemma TrimPad(s: seq<byte>, n: nat)
    requires |s| <= n && (|s| > 0 ==> s[|s| - 1] != SPACE)
    ensures Trim(Pad(s, n)) == s
  {
    var t := Trim(Pad(s, n));
    assert Pad(s, n)[..|s|] == s;
    assert forall i :: |s| <= i < n ==> Pad(s, n)[i] == SPACE;
    assert |s| > 0 ==> Pad(s, n)[|s| - 1] != SPACE;
    assert |t| == |s|;
  }

  lemma UpDown(o: Options, c: byte)
    requires CharOk(o, c)
    ensures CharOk(o, Down(o, Up(o, c))) && Up(o, Down(o, Up(o, c))) == Up(o, c)
    ensures (Down(o, Up(o, c)) == DOT <==> c == DOT) && (Up(o, c) == SPACE <==> c == SPACE)
    ensures Down(o, Up(o, c)) == SPACE <==> c == SPACE
    ensures Up(o, c) == DELETED_FLAG <==> c == DELETED_FLAG
  {
  }

  lemma {:induction false} ToDotIs(s: seq<byte>, n: nat)
    requires n <= |s| && DOT !in s[..n] && (n < |s| ==> s[n] == DOT)
    ensures ToDot(s) == n
  {
    NoDots(s, n);
    NoDots(s, ToDot(s));
  }

  lemma NoDots(s: seq<byte>, n: nat)
    requires n <= |s| && DOT !in s[..n]
    ensures forall i :: 0 <= i < n ==> s[i] != DOT
  {
    forall i | 0 <= i < n ensures s[i] != DOT {
      assert s[..n][i] == s[i];
    }
  }

  /** Base and extension are found again where they were put together. */
  lemma Parts(p: seq<byte>, q: seq<byte>)
    requires DOT !in p && DOT !in q && |p| <= 8 && |q| <= 3
    ensures var s := p + (if q == [] then [] else [DOT] + q);
      BaseOf(s) == p && ExtOf(s) == q && StrictShape(s)
  {
    var s := p + (if q == [] then [] else [DOT] + q);
    assert s[..|p|] == p;
    ToDotIs(s, |p|);
    assert AfterDot(s) == q;
    assert q[..|q|] == q;
    ToDotIs(q, |q|);
  }

  function Shape(o: Options, s: seq<byte>): seq<byte> { DownAll(o, UpAll(o, s)) }

  lemma ShapeOk(o: Options, s: seq<byte>)
    requires PartOk(o, s)
    ensures PartOk(o, Shape(o, s)) && DOT !in Shape(o, s) && UpAll(o, Shape(o, s)) == UpAll(o, s)
    ensures |s| > 0 ==> UpAll(o, s)[|s| - 1] != SPACE
  {
    forall i | 0 <= i < |s|
      ensures CharOk(o, Shape(o, s)[i]) && Shape(o, s)[i] != DOT && Up(o, Shape(o, s)[i]) == Up(o, s[i])
    {
      UpDown(o, s[i]);
    }
    if |s| > 0 {
      UpDown(o, s[|s| - 1]);
    }
  }

  /** The stored first byte comes back, and shaping does not change how it is stored. */
  lemma FirstBack(o: Options, base: seq<byte>)
    requires PartOk(o, base) && 1 <= |base| <= 8
    ensures ShowFirst(Pad(UpAll(o, StoreFirst(base)), 8)) == Pad(UpAll(o, base), 8)
    ensures UpAll(o, StoreFirst(Shape(o, base))) == UpAll(o, StoreFirst(base))
  {
    ShapeOk(o, base);
    assert CharOk(o, base[0]);
    UpDown(o, base[0]);
    forall i | 0 <= i < |base|
      ensures UpAll(o, StoreFirst(Shape(o, base)))[i] == UpAll(o, StoreFirst(base))[i]
    {
      assert Up(o, Shape(o, base)[i]) == UpAll(o, Shape(o, base))[i] == Up(o, base[i]);
    }
  }

  lemma StoredParts(o: Options, base: seq<byte>, ext: seq<byte>)
    requires PartOk(o, base) && PartOk(o, ext) && 1 <= |base| <= 8 && |ext| <= 3
    ensures Trim(UpToNul(ShowFirst(Stored(o, base, ext))[..8])) == UpAll(o, base)
    ensures Trim(UpToNul(ShowFirst(Stored(o, base, ext))[8..])) == UpAll(o, ext)
  {
    var r := Stored(o, base, ext);
    FirstBack(o, base);
    assert ShowFirst(r)[..8] == ShowFirst(Pad(UpAll(o, StoreFirst(base)), 8));
    assert ShowFirst(r)[8..] == Pad(UpAll(o, ext), 3);
    ShapeOk(o, base);
    ShapeOk(o, ext);
    NonzeroPad(o, base, 8);
    NonzeroPad(o, ext, 3);
    TrimPad(UpAll(o, base), 8);
    TrimPad(UpAll(o, ext), 3);
  }

  lemma NonzeroPad(o: Options, s: seq<byte>, n: nat)
    requires PartOk(o, s) && |s| <= n
    ensures UpToNul(Pad(UpAll(o, s), n)) == Pad(UpAll(o, s), n)
  {
    forall i | 0 <= i < n ensures Pad(UpAll(o, s), n)[i] != 0 {
      if i < |s| {
        assert CharOk(o, s[i]) && Pad(UpAll(o, s), n)[i] == Up(o, s[i]);
      }
    }
    NoNul(Pad(UpAll(o, s), n));
  }

  lemma ShownParts(o: Options, dot: bool, base: seq<byte>, ext: seq<byte>)
    requires PartOk(o, base) && PartOk(o, ext) && 1 <= |base| <= 8 && |ext| <= 3
    ensures Show(o, dot, Stored(o, base, ext)) == (if dot then [DOT] else []) + Shaped(o, base, ext)
  {
    StoredParts(o, base, ext);
    GlueShaped(o, dot, base, ext);
  }

  lemma GlueShaped(o: Options, dot: bool, base: seq<byte>, ext: seq<byte>)
    requires 1 <= |base|
    ensures Glue(dot, Shape(o, base), Shape(o, ext)) == (if dot then [DOT] else []) + Shaped(o, base, ext)
  {
    assert |Shape(o, base)| == |base| && |Shape(o, ext)| == |ext|;
  }

  lemma PlainShown(o: Options, dot: bool, s: seq<byte>, base: seq<byte>, ext: seq<byte>, res: seq<byte>)
    requires FormatPlain(o, s) == Name(res) && base == BaseOf(s) && ext == ExtOf(s)
    ensures |res| == MSDOS_NAME && Show(o, dot, res) == (if dot then [DOT] else []) + Shaped(o, base, ext)
    ensures FormatPlain(o, Shaped(o, base, ext)) == Name(res)
    ensures Shaped(o, base, ext) != [] && Shaped(o, base, ext)[0] != DOT
  {
    ShownParts(o, dot, base, ext);
    ShapeFormats(o, base, ext);
  }

  lemma FormatAgain(o: Options, dot: bool, t: seq<byte>)
    requires t != [] && t[0] != DOT && (dot ==> o.dotsOK)
    ensures var shown := (if dot then [DOT] else []) + t; shown != [] && Format(o, shown) == FormatPlain(o, t)
  {
    assert ([DOT] + t)[1..] == t;
    assert [] + t == t;
  }

  /** Formatting what is shown of a formatted name gives the same eleven bytes. */
  lemma FormatShown(o: Options, name: seq<byte>, res: seq<byte>)
    requires name != [] && Format(o, name) == Name(res)
    ensures |res| == MSDOS_NAME && Show(o, name[0] == DOT, res) != []
    ensures Format(o, Show(o, name[0] == DOT, res)) == Name(res)
  {
    var s := if name[0] == DOT then name[1..] else name;
    var base, ext := BaseOf(s), ExtOf(s);
    PlainShown(o, name[0] == DOT, s, base, ext, res);
    FormatAgain(o, name[0] == DOT, Shaped(o, base, ext));
  }

  function Shaped(o: Options, base: seq<byte>, ext: seq<byte>): seq<byte> {
    Shape(o, base) + (if ext == [] then [] else [DOT] + Shape(o, ext))
  }

  lemma ShapeFormats(o: Options, base: seq<byte>, ext: seq<byte>)
    requires PartOk(o, base) && PartOk(o, ext) && 1 <= |base| <= 8 && |ext| <= 3
    ensures FormatPlain(o, Shaped(o, base, ext)) == Name(Stored(o, base, ext))
    ensures Shaped(o, base, ext) != [] && Shaped(o, base, ext)[0] != DOT
  {
    ShapeOk(o, base);
    ShapeOk(o, ext);
    Parts(Shape(o, base), Shape(o, ext));
    FirstBack(o, base);
    assert Shaped(o, base, ext)[0] == Shape(o, base)[0];
  }

  /** A formatted name can be a live entry's: it has no zero byte and does not read as deleted. */
  lemma FormattedLive(o: Options, name: seq<byte>)
    requires name != [] && Format(o, name).Name?
    ensures var res := Format(o, name).res; |res| == MSDOS_NAME && 0 !in res && res[0] != DELETED_FLAG
  {
    var s := if name[0] == DOT then name[1..] else name;
    var base, ext, res := BaseOf(s), ExtOf(s), Format(o, name).res;
    forall i | 0 <= i < MSDOS_NAME ensures res[i] != 0 && (i == 0 ==> res[i] != DELETED_FLAG) {
      if i < |base| {
        assert CharOk(o, base[i]);
      } else if 8 <= i < 8 + |ext| {
        assert CharOk(o, ext[i - 8]);
        assert res[i] == Up(o, ext[i - 8]);
      }
    }
  }

  // ----- the loops --------------------------------------------------------------------------------

  /** Where the loop over the base stops: behind the dot, or at the end or after 8 characters. */
  predicate BaseStop(s: seq<byte>, n: nat, dot: bool) {
    if dot then ToDot(s) < |s| && ToDot(s) < 8 && n == ToDot(s) + 1
    else n <= |s| && DOT !in s[..n] && n <= 8 && (n == |s| || n == 8)
  }

  /** The loop over the base: characters up to a dot, at most 8; `n` is where it stops. */
  method FormatBase(o: Options, s: seq<byte>) returns (ok: bool, res: seq<byte>, n: nat, dot: bool)
    ensures ok <==> BaseOf(s) != [] && PartOk(o, BaseOf(s))
    ensures ok ==> res == UpAll(o, StoreFirst(BaseOf(s))) && BaseStop(s, n, dot)
  {
    hide Up, ToDot;
    var space := true;
    ok, res, n, dot := false, [], 0, false;
    while n < |s| && |res| < 8
      invariant n == |res| <= 8 && n <= |s| && DOT !in s[..n]
      invariant forall i :: 0 <= i < n ==> CharOk(o, s[i]) && s[i] != DOT
      invariant space <==> n == 0 || s[n - 1] == SPACE
      invariant res == UpAll(o, StoreFirst(s[..n]))
    {
      var c := s[n];
      BaseHas(s, n);
      if !CharOk(o, c) {
        if c != DOT {
          assert BaseOf(s)[n] == c;
        }
        return;
      }
      if |res| == 0 && c == DELETED_FLAG {
        c := 0x05;
      }
      if c == DOT {
        dot := true;
        ToDotIs(s, n);
        break;
      }
      space := c == SPACE;
      res := res + [Up(o, c)];
      assert s[..n + 1] == s[..n] + [s[n]];
      n := n + 1;
    }
    if !dot {
      BaseEnds(s, n);
    }
    assert BaseOf(s) == s[..|res|];
    ok := !space;
    if dot {
      n := n + 1;
    }
  }

  lemma BaseHas(s: seq<byte>, n: nat)
    requires n < |s| && n < 8 && DOT !in s[..n]
    ensures s[n] != DOT ==> n < |BaseOf(s)| && BaseOf(s)[n] == s[n]
  {
    NoDots(s, n);
  }

  lemma BaseEnds(s: seq<byte>, n: nat)
    requires n <= |s| && DOT !in s[..n] && (n == |s| || n == 8)
    ensures BaseOf(s) == s[..Min(8, n)] && ToDot(s) >= n
  {
    NoDots(s, n);
  }

  /** Behind the base: strict names must have their dot at once, others are searched for it. */
  method FindDot(o: Options, s: seq<byte>, at: nat, had: bool) returns (ok: bool, n: nat, dot: bool)
    requires BaseStop(s, at, had)
    ensures ok <==> (o.check == Strict ==> ToDot(s) <= 8)
    ensures ok ==> n <= |s| && (dot <==> ToDot(s) < |s|) && (dot ==> n == ToDot(s) + 1)
  {
    n, dot := at, had;
    if !had {
      BaseEnds(s, at);
    }
    if o.check == Strict && n < |s| && !dot {
      if s[n] != DOT {
        NotThere(s, n);
        return false, n, dot;
      }
      ToDotIs(s, n);
      n, dot := n + 1, true;
    }
    while !dot && n < |s|
      invariant at <= n <= |s|
      invariant if dot then ToDot(s) < |s| && n == ToDot(s) + 1 else DOT !in s[..n]
      invariant o.check == Strict ==> dot || n == |s|
      decreases |s| - n
    {
      if s[n] == DOT {
        ToDotIs(s, n);
        dot := true;
      } else {
        assert s[..n + 1] == s[..n] + [s[n]];
      }
      n := n + 1;
    }
    if !dot {
      assert s[..n] == s;
      ToDotIs(s, n);
    }
    ok := true;
  }

  lemma NotThere(s: seq<byte>, n: nat)
    requires n < |s| && DOT !in s[..n] && s[n] != DOT
    ensures ToDot(s) > n
  {
    NoDots(s, n);
  }

  /** The loop over the extension. */
  method FormatExt(o: Options, e: seq<byte>) returns (ok: bool, res: seq<byte>)
    ensures ok <==> PartOk(o, e[..Min(3, ToDot(e))]) && (o.check == Strict ==> Min(3, ToDot(e)) == |e|)
    ensures ok ==> res == UpAll(o, e[..Min(3, ToDot(e))])
  {
    var space, n := false, 0;
    ok, res := false, [];
    while n < |e| && |res| < 3
      invariant n == |res| <= 3 && n <= |e| && DOT !in e[..n]
      invariant forall i :: 0 <= i < n ==> CharOk(o, e[i]) && e[i] != DOT
      invariant space <==> n > 0 && e[n - 1] == SPACE
      invariant res == UpAll(o, e[..n])
    {
      var c := e[n];
      if c == DOT {
        ToDotIs(e, n);
        if o.check == Strict {
          return;
        }
        ok := !space;
        return;
      }
      NotThere(e, n);
      if !CharOk(o, c) {
        assert e[..Min(3, ToDot(e))][n] == c;
        return;
      }
      space := c == SPACE;
      res := res + [Up(o, c)];
      assert e[..n + 1] == e[..n] + [e[n]];
      n := n + 1;
    }
    ExtEnds(e, n);
    ok := !space && !(o.check == Strict && n < |e|);
  }

  lemma ExtEnds(e: seq<byte>, n: nat)
    requires n <= |e| && DOT !in e[..n] && (n == |e| || n == 3)
    ensures n <= 3 ==> Min(3, ToDot(e)) == n
  {
    NoDots(e, n);
  }

  /** What follows the base. */
  method FormatTail(o: Options, s: seq<byte>, at: nat, had: bool) returns (ok: bool, ext: seq<byte>)
    requires BaseStop(s, at, had)
    ensures ok <==> PartOk(o, ExtOf(s)) && (o.check == Strict ==> StrictShape(s))
    ensures ok ==> ext == UpAll(o, ExtOf(s))
  {
    ext := [];
    var n, dot;
    ok, n, dot := FindDot(o, s, at, had);
    if ok && dot {
      ok, ext := FormatExt(o, s[n..]);
    }
  }

  // ----- formatting by characters -----------------------------------------------------------

  /** May this byte stand in a formatted name? Legal ones and `[ ] /` may; `+ = , ;` and a blank
      inside if the check is not strict, `* ? < > | "` if it is relaxed, small letters if they are
      kept. */
  predicate Formattable(o: Options, b: byte) {
    || Legal(b) || b == 0x5B || b == 0x5D || b == 0x2F || b == SPACE
    || (!o.check.Strict? && (b == 0x2B || b == 0x3D || b == 0x2C || b == 0x3B))
    || (o.check.Relaxed? && (b == 0x2A || b == 0x3F || b == 0x3C || b == 0x3E || b == 0x7C || b == 0x22))
    || (o.nocase && 0x61 <= b <= 0x7A)
  }

  lemma PartFormattable(o: Options, s: seq<byte>, n: nat)
    requires PartOk(o, s) && |s| <= n
    ensures forall i :: 0 <= i < n ==> Formattable(o, Pad(UpAll(o, s), n)[i])
  {
    forall i | 0 <= i < n ensures Formattable(o, Pad(UpAll(o, s), n)[i]) {
      if i < |s| {
        assert CharOk(o, s[i]) && s[i] != DOT;
      }
    }
  }

  /** The byte a character is stored as: its capital, or the character itself if case is kept. */
  function Taken(o: Options, c: byte): byte { if o.nocase then c else Upper(c) }

  /** A character is taken if that may stand in a formatted name; on a strict mount capitals and blanks
      are not. */
  predicate CharTaken(o: Options, c: byte) {
    Formattable(o, Taken(o, c)) && (o.check.Strict? ==> !(0x41 <= c <= 0x5A) && c != SPACE)
  }

  lemma CharOkIs(o: Options, c: byte)
    ensures Up(o, c) == Taken(o, c) && Down(o, c) == if o.nocase then c else Lower(c)
    ensures c != DOT ==> (CharOk(o, c) <==> CharTaken(o, c))
  {
  }

  /** A part of a name that is taken: all its characters are, and it does not end in a blank. */
  predicate PartTaken(o: Options, s: seq<byte>) {
    (|s| > 0 ==> s[|s| - 1] != SPACE) && forall i :: 0 <= i < |s| ==> CharTaken(o, s[i])
  }

  lemma PartTakenIs(o: Options, s: seq<byte>)
    requires DOT !in s
    ensures PartTaken(o, s) <==> PartOk(o, s)
  {
    hide CharOk, CharTaken;
    forall i | 0 <= i < |s|
      ensures CharOk(o, s[i]) <==> CharTaken(o, s[i])
    {
      CharOkIs(o, s[i]);
    }
  }

  /** The first dot of `s` is at `d`, and the next one at `d2`; `|s|` if there is none. */
  ghost predicate Dots(s: seq<byte>, d: nat, d2: nat) {
    && d <= d2 <= |s| && DOT !in s[..d]
    && (if d == |s| then d2 == |s|
        else
          && s[d] == DOT && d < d2 && DOT !in s[d + 1..d2]
          && (d2 < |s| ==> s[d2] == DOT))
  }

  /** The part of a name before its first dot, as much of it as is stored, and what stands between that
      dot and the next. */
  function Base8(s: seq<byte>, d: nat): seq<byte>
    requires d <= |s|
  {
    s[..Min(8, d)]
  }

  function Behind(s: seq<byte>, d: nat, d2: nat): seq<byte>
    requires d <= d2 <= |s|
  {
    if d < d2 then s[d + 1..d2] else []
  }

  function Ext3(s: seq<byte>, d: nat, d2: nat): seq<byte>
    requires d <= d2 <= |s|
  {
    Behind(s, d, d2)[..Min(3, |Behind(s, d, d2)|)]
  }

  /** A field of `n` bytes that holds `s`, each character as it is stored. */
  ghost predicate FieldOf(o: Options, field: seq<byte>, s: seq<byte>) {
    forall i :: 0 <= i < |field| ==> field[i] == if i < |s| then Taken(o, s[i]) else SPACE
  }

  /** Where base and extension lie, and when they are the whole name. */
  lemma PartsLie(s: seq<byte>, d: nat, d2: nat)
    requires Dots(s, d, d2)
    ensures BaseOf(s) == Base8(s, d) && ExtOf(s) == Ext3(s, d, d2)
    ensures DOT !in Base8(s, d) && DOT !in Ext3(s, d, d2)
    ensures StrictShape(s) <==> d <= 8 && |Behind(s, d, d2)| <= 3 && d2 == |s|
  {
    hide ToDot;
    ToDotIs(s, d);
    var after := AfterDot(s);
    if d < |s| {
      assert after == s[d + 1..] && after[..d2 - (d + 1)] == Behind(s, d, d2);
      ToDotIs(after, d2 - (d + 1));
    } else {
      assert after == [];
    }
  }

  /** A name with these dots is accepted. */
  ghost predicate Taken83(o: Options, s: seq<byte>, d: nat, d2: nat)
    requires d <= d2 <= |s|
  {
    && d > 0 && PartTaken(o, Base8(s, d)) && PartTaken(o, Ext3(s, d, d2))
    && (o.check.Strict? ==> d <= 8 && |Behind(s, d, d2)| <= 3 && d2 == |s|)
  }

  /** Its characters as they are stored; 0x05 stands for 0xE5 in front. */
  ghost predicate Stored83(o: Options, s: seq<byte>, d: nat, d2: nat, res: seq<byte>)
    requires 0 < d <= d2 <= |s|
  {
    && |res| == MSDOS_NAME && FieldOf(o, res[8..], Ext3(s, d, d2))
    && FieldOf(o, if s[0] == DELETED_FLAG then res[..8][0 := DELETED_FLAG] else res[..8], Base8(s, d))
    && (s[0] == DELETED_FLAG ==> res[0] == 0x05)
  }

  /** What becomes of a name without a dot in front. */
  ghost predicate FormatsAs(o: Options, s: seq<byte>, f: Formatted) {
    exists d: nat, d2: nat :: Dots(s, d, d2)
      && (f.Name? <==> Taken83(o, s, d, d2)) && (f.Name? ==> Stored83(o, s, d, d2, f.res))
  }

  /** The first two dots of any name. */
  lemma SomeDots(s: seq<byte>) returns (d: nat, d2: nat)
    ensures Dots(s, d, d2)
  {
    d := ToDot(s);
    d2 := |s|;
    if d < |s| {
      d2 := d + 1 + ToDot(s[d + 1..]);
      assert s[d + 1..][..ToDot(s[d + 1..])] == s[d + 1..d2];
    }
  }

  lemma FormatMeans(o: Options, s: seq<byte>)
    ensures FormatsAs(o, s, FormatPlain(o, s))
  {
    hide Taken83, Stored83, FormatPlain, Dots;
    var d, d2 := SomeDots(s);
    DotsInside(s, d, d2);
    FormatAccepts(o, s, d, d2);
  }

  lemma DotsInside(s: seq<byte>, d: nat, d2: nat)
    requires Dots(s, d, d2)
    ensures d <= d2 <= |s|
  {
  }

  /** When a name without a dot in front is accepted, and what it becomes: up to eight characters
      before its first dot, at least one, and up to three behind that, before the next one; on a
      strict mount there are no more and no second dot. */
  lemma FormatAccepts(o: Options, s: seq<byte>, d: nat, d2: nat)
    requires Dots(s, d, d2)
    ensures FormatPlain(o, s).Name? <==> Taken83(o, s, d, d2)
    ensures FormatPlain(o, s).Name? ==> Stored83(o, s, d, d2, FormatPlain(o, s).res)
  {
    hide FormatPlain, BaseOf, ExtOf, StrictShape, PartOk,
      Stored, PartTaken, Base8, Behind, Ext3, FieldOf;
    PartsLie(s, d, d2);
    PartTakenIs(o, Base8(s, d));
    PartTakenIs(o, Ext3(s, d, d2));
    BaseStarts(s, d);
    PlainIs(o, s);
    if FormatPlain(o, s).Name? {
      StoredAs(o, Base8(s, d), Ext3(s, d, d2));
    }
  }

  lemma BaseStarts(s: seq<byte>, d: nat)
    requires d <= |s|
    ensures |Base8(s, d)| <= 8 && (Base8(s, d) != [] <==> d > 0)
    ensures d > 0 ==> Base8(s, d)[0] == s[0]
  {
  }

  /** What the driver's parts decide. */
  lemma PlainIs(o: Options, s: seq<byte>)
    ensures FormatPlain(o, s).Name? <==>
      && BaseOf(s) != [] && PartOk(o, BaseOf(s))
      && PartOk(o, ExtOf(s)) && (o.check.Strict? ==> StrictShape(s))
    ensures |BaseOf(s)| <= 8 && |ExtOf(s)| <= 3
    ensures FormatPlain(o, s).Name? ==>
      FormatPlain(o, s).res == Stored(o, BaseOf(s), ExtOf(s))
  {
    hide PartOk, ToDot, StrictShape, Stored;
  }

  lemma StoredAs(o: Options, base: seq<byte>, ext: seq<byte>)
    requires 1 <= |base| <= 8 && |ext| <= 3
    ensures var res := Stored(o, base, ext);
      && FieldOf(o, res[8..], ext)
      && FieldOf(o, if base[0] == DELETED_FLAG then res[..8][0 := DELETED_FLAG] else res[..8], base)
      && (base[0] == DELETED_FLAG ==> res[0] == 0x05)
  {
    hide Formattable;
    var res, st := Stored(o, base, ext), StoreFirst(base);
    assert res[..8] == Pad(UpAll(o, st), 8) && res[8..] == Pad(UpAll(o, ext), 3);
    forall i | 0 <= i < |base| ensures res[i] == Up(o, st[i]) == Taken(o, st[i]) {
      assert res[..8][i] == UpAll(o, st)[i];
      CharOkIs(o, st[i]);
    }
    forall i | 0 <= i < |ext| ensures res[8 + i] == Taken(o, ext[i]) {
      assert res[8..][i] == UpAll(o, ext)[i];
      CharOkIs(o, ext[i]);
    }
  }

  /** Every byte of a formatted name may stand there. */
  lemma FormattedLegal(o: Options, name: seq<byte>, res: seq<byte>)
    requires name != [] && Format(o, name) == Name(res)
    ensures |res| == MSDOS_NAME
    ensures forall i :: 0 <= i < MSDOS_NAME ==> Formattable(o, res[i]) || (i == 0 && res[i] == 0x05)
  {
    hide FormatPlain, BaseOf, ExtOf, PartOk, Formattable;
    var s := if name[0] == DOT then name[1..] else name;
    PlainIs(o, s);
    var base, ext := BaseOf(s), ExtOf(s);
    PartFormattable(o, base, 8);
    PartFormattable(o, ext, 3);
    forall i | 0 <= i < MSDOS_NAME ensures Formattable(o, res[i]) || (i == 0 && res[i] == 0x05) {
      if i >= 8 {
        assert res[i] == Pad(UpAll(o, ext), 3)[i - 8];
      } else if i > 0 {
        assert res[i] == Pad(UpAll(o, base), 8)[i];
      } else {
        assert res[0] == Up(o, StoreFirst(base)[0]);
        assert Pad(UpAll(o, base), 8)[0] == Up(o, base[0]);
      }
    }
  }

  /** `msdos_format_name`. */
  method FormatName(o: Options, name: seq<byte>) returns (f: Formatted)
    requires name != []
    ensures f == Format(o, name)
    ensures name[0] == '.' as int && !o.dotsOK ==> f == Refused
    ensures name[0] == '.' as int && o.dotsOK ==> FormatsAs(o, name[1..], f)
    ensures name[0] != '.' as int ==> FormatsAs(o, name, f)
  {
    hide FormatsAs, FormatPlain;
    f := FormatLoops(o, name);
    FormatMeans(o, if name[0] == DOT then name[1..] else name);
  }

  method FormatLoops(o: Options, name: seq<byte>) returns (f: Formatted)
    requires name != []
    ensures f == Format(o, name)
  {
    var s := name;
    if name[0] == DOT {
      if !o.dotsOK {
        return Refused;
      }
      s := name[1..];
    }
    var ok, res, n, dot := FormatBase(o, s);
    if !ok {
      return Refused;
    }
    var ext;
    ok, ext := FormatTail(o, s, n, dot);
    if !ok {
      return Refused;
    }
    f := Name(Pad(res, 8) + Pad(ext, 3));
  }

  /** `fat_parse_short` of an MS-DOS mount: the base up to its last character that is no blank, a
      dot, and the extension likewise, if there is one. */
  method ParseShort(o: Options, dot: bool, res: seq<byte>) returns (text: seq<byte>)
    requires |res| == MSDOS_NAME
    ensures text == Show(o, dot, res)
  {
    var work := ShowFirst(res);
    var base := ShowPart(o, work[..8]);
    var ext := ShowPart(o, work[8..]);
    text := Together(dot, base, ext);
  }

  method Together(dot: bool, base: seq<byte>, ext: seq<byte>) returns (text: seq<byte>)
    ensures text == Glue(dot, base, ext)
  {
    text := base;
    if ext != [] {
      text := text + ([DOT] + ext);
    }
    if text != [] && dot {
      text := [DOT] + text;
    }
  }

  /** The field is read up to `i`, its last character that is no blank stands before `len`. */
  ghost predicate FieldRead(o: Options, s: seq<byte>, i: nat, len: nat, buf: seq<byte>) {
    && len <= i <= |s| && |buf| == i && (forall x :: 0 <= x < i ==> buf[x] == Down(o, s[x]) && s[x] != 0)
    && (len > 0 ==> s[len - 1] != SPACE) && (forall x :: len <= x < i ==> s[x] == SPACE)
  }

  lemma FieldOn(o: Options, s: seq<byte>, i: nat, len: nat, buf: seq<byte>)
    requires FieldRead(o, s, i, len, buf) && i < |s| && s[i] != 0
    ensures FieldRead(o, s, i + 1, if s[i] != SPACE then i + 1 else len, buf + [Down(o, s[i])])
  {
  }

  lemma FieldDone(o: Options, s: seq<byte>, i: nat, len: nat, buf: seq<byte>)
    requires FieldRead(o, s, i, len, buf) && (i < |s| ==> s[i] == 0)
    ensures len <= |buf| && buf[..len] == ShowField(o, s)
  {
    NulIs(s, i);
    TrimIs(s[..i], len);
  }

  method ShowPart(o: Options, s: seq<byte>) returns (r: seq<byte>)
    ensures r == ShowField(o, s)
  {
    var i, len, buf := 0, 0, [];
    while i < |s| && s[i] != 0
      invariant 0 <= len <= i <= |s| && FieldRead(o, s, i, len, buf)
      decreases |s| - i
    {
      FieldOn(o, s, i, len, buf);
      buf := buf + [Down(o, s[i])];
      i := i + 1;
      if s[i - 1] != SPACE {
        len := i;
      }
    }
    FieldDone(o, s, i, len, buf);
    r := buf[..len];
  }

  lemma NulIs(s: seq<byte>, n: nat)
    requires n <= |s| && 0 !in s[..n] && (n < |s| ==> s[n] == 0)
    ensures UpToNul(s) == s[..n]
  {
    var r := UpToNul(s);
    assert forall i :: 0 <= i < n ==> s[..n][i] == s[i];
    assert forall i :: 0 <= i < |r| ==> r[i] == s[i];
    assert |r| == n;
  }

  lemma TrimIs(s: seq<byte>, n: nat)
    requires n <= |s| && (n > 0 ==> s[n - 1] != SPACE) && forall x :: n <= x < |s| ==> s[x] == SPACE
    ensures Trim(s) == s[..n]
  {
    assert |Trim(s)| == n;
  }
}
