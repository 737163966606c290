/** The 32-byte directory slots and the long names spread over them (dir.c, namei_vfat.c,
    fat.h). One slot is either a short entry (`msdos_dir_entry`) or a piece of a long name
    (`msdos_dir_slot`); both are views of the same bytes. */
module DirSlots {
  import opened EntryCodec

  type u16 = x: int | 0 <= x < 0x1_0000
  type Slot = s: seq<byte> | |s| == 32 witness seq(32, _ => 0)

  const DELETED_FLAG := 0xE5
  const SPACE: byte := 0x20
  const NLS_MAX_CHARSET_SIZE := 6  // most bytes of one character
  const ATTR_EXT := 0x0F
  const MSDOS_NAME := 11
  const FAT_LFN_LEN := 255

  /** A slot as a freshly cleared cluster holds it. */
  function ZeroSlot(): Slot { seq(32, _ => 0) }

  // ----- short entries -----------------------------------------------------------------

  /** `IS_FREE`: never used, or deleted. */
  predicate IsFree(s: Slot) { s[0] == 0 || s[0] == DELETED_FLAG }

  /** ATTR_VOLUME is set; so it is in every piece of a long name. */
  predicate IsVolume(s: Slot) { s[11] / 8 % 2 == 1 }

  predicate IsLong(s: Slot) { s[11] == ATTR_EXT }

  /** The entries `fat_get_short_entry` stops at. */
  predicate LiveShort(s: Slot) { !IsFree(s) && !IsVolume(s) }

  /** An entry is in use unless its first byte is zero or 0xE5. Of the attributes read-only, hidden,
      system, volume, directory and archive only that of a volume label keeps one in use from being
      live. */
  lemma LiveUnlessVolume(s: Slot, readOnly: bool, hidden: bool, system: bool, volume: bool, dir: bool, archive: bool)
    requires s[11] == (if readOnly then 1 else 0) + (if hidden then 2 else 0) + (if system then 4 else 0)
      + (if volume then 8 else 0) + (if dir then 16 else 0) + (if archive then 32 else 0)
    ensures LiveShort(s) <==> s[0] != 0 && s[0] != 0xE5 && !volume
  {
  }

  function ShortName(s: Slot): (name: seq<byte>)
    ensures |name| == MSDOS_NAME
  {
    s[..MSDOS_NAME]
  }

  /** `strncmp(a, b, MSDOS_NAME) == 0`: equal up to a zero byte, if there is one. */
  predicate StrnEq(a: seq<byte>, b: seq<byte>)
    requires |a| == MSDOS_NAME && |b| == MSDOS_NAME
  {
    forall i :: 0 <= i < MSDOS_NAME && 0 !in a[..i] ==> a[i] == b[i]
  }

  /** One step of `fat_checksum`: rotate right by one bit and add. */
  /** `strncmp`: the same bytes up to the first zero. */
  lemma StrnMeans(a: seq<byte>, b: seq<byte>)
    requires |a| == MSDOS_NAME && |b| == MSDOS_NAME
    ensures StrnEq(a, b) <==> a == b || exists i :: 0 <= i < 11 && a[..i + 1] == b[..i + 1] && a[i] == 0
  {
    if z :| 0 <= z < 11 && a[z] == 0 {
      var i := FirstZero(a, z);
      if StrnEq(a, b) {
        forall j | 0 <= j <= i ensures a[j] == b[j] {
          assert 0 !in a[..j];
        }
        assert a[..i + 1] == b[..i + 1];
      }
    } else if StrnEq(a, b) {
      assert forall i :: 0 <= i < 11 ==> 0 !in a[..i];
    }
    if i :| 0 <= i < 11 && a[..i + 1] == b[..i + 1] && a[i] == 0 {
      forall j | i < j < 11 ensures 0 in a[..j] {
        assert a[..j][i] == 0;
      }
      forall j | 0 <= j <= i ensures a[j] == b[j] {
        assert a[..i + 1][j] == b[..i + 1][j];
      }
    }
  }

  lemma {:induction false} FirstZero(a: seq<byte>, z: nat) returns (i: nat)
    requires z < |a| && a[z] == 0
    ensures i <= z && a[i] == 0 && 0 !in a[..i]
    decreases z
  {
    i := z;
    if 0 in a[..z] {
      var y :| 0 <= y < z && a[..z][y] == 0;
      i := FirstZero(a, y);
    }
  }

  function SumStep(s: byte, c: byte): byte { (s % 2 * 128 + s / 2 + c) % 256 }

  /** That step on the eight bits of the sum. */
  lemma SumStepRotates(s: bv8, c: byte)
    ensures SumStep(s as int, c) == (s.RotateRight(1) as int + c) % 256
  {
    Rotated(s);
  }

  lemma Rotated(s: bv8)
    ensures s.RotateRight(1) as int == s as int % 2 * 128 + s as int / 2
  {
    LowBit(s);
    HalfBits(s);
    if s & 1 == 1 {
      assert s.RotateRight(1) == 128 + (s >> 1);
      HighBit(s >> 1);
    } else {
      assert s.RotateRight(1) == s >> 1;
    }
  }

  lemma LowBit(s: bv8)
    ensures s & 1 == 1 <==> s as int % 2 == 1
  {
  }

  lemma HalfBits(s: bv8)
    ensures s >> 1 < 128 && (s >> 1) as int == s as int / 2
  {
  }

  lemma HighBit(s: bv8)
    requires s < 128
    ensures (128 + s) as int == 128 + s as int
  {
  }

  function SumTo(name: seq<byte>, i: nat): byte
    requires i < |name|
    decreases i
  {
    if i == 0 then name[0] else SumStep(SumTo(name, i - 1), name[i])
  }

  /** `fat_checksum`. */
  function Checksum(name: seq<byte>): byte
    requires |name| == MSDOS_NAME
  {
    SumTo(name, MSDOS_NAME - 1)
  }

  /** The sum over the first `n` bytes, from zero on. */
  function Fold(name: seq<byte>, n: nat): byte
    requires n <= |name|
  {
    if n == 0 then 0 else SumStep(Fold(name, n - 1), name[n - 1])
  }

  /** The checksum takes all eleven bytes, and starts from zero. */
  lemma ChecksumFolds(name: seq<byte>)
    requires |name| == MSDOS_NAME
    ensures Checksum(name) == Fold(name, MSDOS_NAME)
  {
    SumFolds(name, MSDOS_NAME - 1);
  }

  lemma {:induction false} SumFolds(name: seq<byte>, i: nat)
    requires i < |name|
    ensures SumTo(name, i) == Fold(name, i + 1)
  {
    if i > 0 {
      SumFolds(name, i - 1);
    } else {
      assert Fold(name, 0) == 0;
    }
  }

  lemma SumStepInjective(s: byte, c: byte, s': byte, c': byte)
    requires (s == s') != (c == c')
    ensures SumStep(s, c) != SumStep(s', c')
  {
    if s == s' {
      SumMod(s % 2 * 128 + s / 2, c, c');
    } else {
      assert s % 2 * 128 + s / 2 != s' % 2 * 128 + s' / 2;
      SumMod(c, s % 2 * 128 + s / 2, s' % 2 * 128 + s' / 2);
    }
  }

  lemma SumMod(a: byte, b: byte, b': byte)
    requires b != b'
    ensures (a + b) % 256 != (a + b') % 256
  {
  }

  /** The checksum sees every change of a single byte of a name. */
  lemma {:induction false} ChecksumSeesOneByte(name: seq<byte>, k: nat, c: byte, i: nat)
    requires k < |name| && c != name[k] && i < |name|
    ensures SumTo(name[k := c], i) == SumTo(name, i) <==> i < k
    decreases i
  {
    if i > 0 {
      ChecksumSeesOneByte(name, k, c, i - 1);
      if i >= k {
        SumStepInjective(SumTo(name, i - 1), name[i], SumTo(name[k := c], i - 1), name[k := c][i]);
      }
    }
  }

  // ----- pieces of a long name -----------------------------------------------------------

  /** Bit 0x40 of the id: the first slot of a name, holding its last piece. */
  predicate Leads(s: Slot) { s[0] / 64 % 2 == 1 }

  /** `id & ~0x40`. */
  function Count(s: Slot): nat { s[0] % 64 + s[0] / 128 * 128 }

  /** The id of a piece: its number, 0x40 for the last one of a name, and a bit that none of ours has. */
  lemma IdParts(s: Slot, n: nat, last: bool, high: bool)
    requires n < 0x40 && s[0] == n + (if last then 0x40 else 0) + (if high then 0x80 else 0)
    ensures (Leads(s) <==> last) && Count(s) == n + if high then 0x80 else 0
  {
  }

  function AliasSum(s: Slot): byte { s[13] }

  /** Where unit `i` of the 13 lies: name0_4, name5_10 or name11_12. */
  function UnitAt(i: nat): nat
    requires i < 13
  {
    if i < 5 then 1 + 2 * i else if i < 11 then 4 + 2 * i else 6 + 2 * i
  }

  function Unit(s: Slot, i: nat): u16
    requires i < 13
  {
    Le16(s[UnitAt(i)], s[UnitAt(i) + 1])
  }

  function Units(s: Slot): (u: seq<u16>)
    ensures |u| == 13
  {
    seq(13, i requires 0 <= i < 13 => Unit(s, i))
  }

  function Low(u: u16): byte { u % 256 }
  function High(u: u16): byte { u / 256 }

  /** `fatwchar_to16`: units as little-endian bytes. */
  function Bytes(u: seq<u16>): (b: seq<byte>)
    ensures |b| == 2 * |u|
    decreases |u|
  {
    if |u| == 0 then [] else [Low(u[0]), High(u[0])] + Bytes(u[1..])
  }

  lemma {:induction false} BytesAt(u: seq<u16>, i: nat)
    requires i < |u|
    ensures Bytes(u)[2 * i] == Low(u[i]) && Bytes(u)[2 * i + 1] == High(u[i])
    decreases i
  {
    if i > 0 {
      BytesAt(u[1..], i - 1);
      assert Bytes(u)[2 * i] == Bytes(u[1..])[2 * i - 2] && Bytes(u)[2 * i + 1] == Bytes(u[1..])[2 * i - 1];
    }
  }

  /** One slot of `vfat_build_slots`. */
  function LongSlot(id: byte, sum: byte, u: seq<u16>): Slot
    requires |u| == 13
  {
    ([id] + Bytes(u[..5])) + (([ATTR_EXT, 0, sum] + Bytes(u[5..11])) + ([0, 0] + Bytes(u[11..])))
  }

  lemma LongSlotUnits(id: byte, sum: byte, u: seq<u16>)
    requires |u| == 13
    ensures var s := LongSlot(id, sum, u); s[0] == id && IsLong(s) && AliasSum(s) == sum && Units(s) == u
  {
    var s := LongSlot(id, sum, u);
    forall i | 0 <= i < 13 ensures Units(s)[i] == u[i] {
      LongSlotUnit(id, sum, u, i);
    }
  }

  /** Where the fields of a slot stand: id, five units, attribute, reserved byte, checksum, six units,
      no start cluster, two units. */
  lemma LongSlotFields(id: byte, sum: byte, u: seq<u16>)
    requires |u| == 13
    ensures var s := LongSlot(id, sum, u);
      && s[0] == id && s[11] == 0x0F && s[12] == 0 && s[13] == sum && s[26] == 0 && s[27] == 0
      && (forall i :: 0 <= i < 5 ==> Le16(s[1 + 2 * i], s[2 + 2 * i]) == u[i])
      && (forall i :: 0 <= i < 6 ==> Le16(s[14 + 2 * i], s[15 + 2 * i]) == u[5 + i])
      && Le16(s[28], s[29]) == u[11] && Le16(s[30], s[31]) == u[12]
  {
    hide Bytes;
    var s := LongSlot(id, sum, u);
    forall i | 0 <= i < 13 ensures Le16(s[UnitAt(i)], s[UnitAt(i) + 1]) == u[i] {
      LongSlotUnit(id, sum, u, i);
    }
    assert forall i :: 0 <= i < 5 ==> UnitAt(i) == 1 + 2 * i;
    assert forall i :: 0 <= i < 6 ==> UnitAt(5 + i) == 14 + 2 * i;
    assert UnitAt(11) == 28 && UnitAt(12) == 30;
  }

  lemma LongSlotUnit(id: byte, sum: byte, u: seq<u16>, i: nat)
    requires |u| == 13 && i < 13
    ensures Unit(LongSlot(id, sum, u), i) == u[i]
  {
    var s := LongSlot(id, sum, u);
    if i < 5 {
      BytesAt(u[..5], i);
    } else if i < 11 {
      BytesAt(u[5..11], i - 5);
    } else {
      BytesAt(u[11..], i - 11);
    }
    assert s[UnitAt(i)] == Low(u[i]) && s[UnitAt(i) + 1] == High(u[i]);
  }

  // ----- reading a long name ----------------------------------------------------------------

  /** Slot `p + j` is the piece expected there, of the `k` pieces starting at `p`. */
  predicate Continues(es: seq<Slot>, p: nat, k: nat, j: nat)
    requires p < |es|
  {
    p + j < |es| && IsLong(es[p + j]) && Count(es[p + j]) == k - j && AliasSum(es[p + j]) == AliasSum(es[p])
  }

  /** The first `j` from the given one on where the pieces stop, at most `k`. */
  function Matching(es: seq<Slot>, p: nat, k: nat, j: nat): (m: nat)
    requires p < |es| && 1 <= j <= k && p + j <= |es|
    ensures j <= m <= k && p + m <= |es|
    ensures m < k ==> !Continues(es, p, k, m)
    ensures forall i :: j <= i < m ==> Continues(es, p, k, i)
    decreases k - j
  {
    if j < k && Continues(es, p, k, j) then Matching(es, p, k, j + 1) else j
  }

  /** What `fat_parse_long` puts in its buffer for `j` slots from `p`, with the closing zero:
      pieces are written back to front, and a slot with bit 0x40 writes a zero behind its own. */
  function Text(es: seq<Slot>, p: nat, j: nat): (u: seq<u16>)
    requires p + j <= |es|
    ensures |u| == 13 * j + 1
    decreases j
  {
    if j == 0 then [0]
    else
      var rest := Text(es, p, j - 1);
      Units(es[p + j - 1]) + (if Leads(es[p + j - 1]) then [0] + rest[1..] else rest)
  }

  /** A name of C: the units before the first zero. */
  /** Where the units stand: those of the last slot first, 13 of each, and zero at the end. A slot that leads,
      with others before it, ends the text behind its own units. */
  lemma {:induction false} TextUnits(es: seq<Slot>, p: nat, j: nat, x: nat)
    requires p + j <= |es| && x <= 13 * j
    ensures Text(es, p, j)[x] == if x == 13 * j then 0
      else if x > 0 && x % 13 == 0 && Leads(es[p + j - x / 13]) then 0
      else Unit(es[p + j - 1 - x / 13], x % 13)
    decreases j
  {
    hide Text, Leads, Unit;
    TextNext(es, p, j, x);
    if x >= 13 {
      TextUnits(es, p, j - 1, x - 13);
      assert x / 13 == (x - 13) / 13 + 1 && x % 13 == (x - 13) % 13;
    }
  }

  lemma TextNext(es: seq<Slot>, p: nat, j: nat, x: nat)
    requires p + j <= |es| && x <= 13 * j
    ensures Text(es, p, j)[x] == if j == 0 then 0
      else if x < 13 then Unit(es[p + j - 1], x)
      else if x == 13 && Leads(es[p + j - 1]) then 0
      else Text(es, p, j - 1)[x - 13]
  {
    hide Unit;
  }

  function UpToZero(u: seq<u16>): (r: seq<u16>)
    ensures |r| <= |u| && r == u[..|r|] && 0 !in r
    ensures |r| < |u| ==> u[|r|] == 0
    decreases |u|
  {
    if |u| == 0 || u[0] == 0 then [] else
      var r := UpToZero(u[1..]);
      assert forall i :: 0 <= i < |r| ==> r[i] == u[1..][i] == u[1 + i];
      [u[0]] + r
  }

  /** Outcome of `fat_parse_long`; `at` is the slot the caller is left at. */
  datatype Parsed = Named(units: seq<u16>, slots: nat, at: nat) | Invalid(at: nat) | NotLong(at: nat) | Eof

  predicate Starts(s: Slot) { Leads(s) && 1 <= Count(s) <= 20 }

  /** All `k` pieces from `p` are there; what follows them is not a piece. */
  function Ended(es: seq<Slot>, p: nat, k: nat): Parsed
    requires p + k < |es|
  {
    if es[p + k][0] == DELETED_FLAG || IsFree(es[p + k]) || IsVolume(es[p + k]) then Invalid(p + k)
    else Named(Text(es, p, k), if Checksum(ShortName(es[p + k])) == AliasSum(es[p]) then k else 0, p + k)
  }

  /** `fat_parse_long` from slot `p`. */
  function Parse(es: seq<Slot>, p: nat): Parsed
    requires p < |es|
    decreases |es| - p
  {
    if !Starts(es[p]) then Invalid(p)
    else
      var k := Count(es[p]);
      var m := Matching(es, p, k, 1);
      if p + m == |es| then Eof
      else if m < k then (if !IsLong(es[p + m]) then NotLong(p + m) else Parse(es, p + m))
      else if es[p + k][0] != DELETED_FLAG && IsLong(es[p + k]) then Parse(es, p + k)
      else Ended(es, p, k)
  }

  /** `k` pieces of a long name and the short entry they belong to stand from `p` on. */
  predicate RecordAt(es: seq<Slot>, p: nat, k: nat) {
    && 1 <= k <= 20 && p + k < |es|
    && Leads(es[p]) && IsLong(es[p]) && Count(es[p]) == k
    && (forall j :: 1 <= j < k ==> Continues(es, p, k, j))
    && LiveShort(es[p + k]) && Checksum(ShortName(es[p + k])) == AliasSum(es[p])
  }

  /** Every record is parsed whole. */
  lemma ParseRecord(es: seq<Slot>, p: nat, k: nat)
    requires RecordAt(es, p, k)
    ensures Parse(es, p) == Named(Text(es, p, k), k, p + k)
  {
    hide Text, Units, Checksum;
    assert Matching(es, p, k, 1) == k;
    assert Parse(es, p) == Ended(es, p, k);
  }

  predicate AllLong(es: seq<Slot>, p: nat, q: nat) {
    q <= |es| && forall i :: p <= i < q ==> IsLong(es[i])
  }

  lemma PiecesAreLong(es: seq<Slot>, p: nat, k: nat, m: nat)
    requires p < |es| && IsLong(es[p]) && 1 <= m <= k && p + m <= |es|
    requires forall i :: 1 <= i < m ==> Continues(es, p, k, i)
    ensures AllLong(es, p, p + m)
  {
    forall i | p < i < p + m ensures IsLong(es[i]) {
      assert Continues(es, p, k, i - p);
    }
  }

  /** What a parse from `p` says about the slots: what is parsed with a count is a record, and
      its text is the record's; nothing that the scan is left at, or that it passed over, is a
      live short entry but the one it names. */
  ghost predicate SoundParse(es: seq<Slot>, p: nat, r: Parsed) {
    match r
    case Named(u, n, at) =>
      && p < at < |es| && LiveShort(es[at]) && n <= at - p && AllLong(es, p, at)
      && (n > 0 ==> RecordAt(es, at - n, n) && u == Text(es, at - n, n))
    case Invalid(at) => p <= at < |es| && !LiveShort(es[at]) && AllLong(es, p, at)
    case NotLong(at) => p < at < |es| && !IsLong(es[at]) && AllLong(es, p, at)
    case Eof => p < |es| && AllLong(es, p, |es|)
  }

  lemma SoundFurther(es: seq<Slot>, p: nat, q: nat, r: Parsed)
    requires p < q && AllLong(es, p, q) && SoundParse(es, q, r)
    ensures SoundParse(es, p, r)
  {
  }

  lemma EndedSound(es: seq<Slot>, p: nat, k: nat)
    requires 1 <= k <= 20 && p + k < |es| && Leads(es[p]) && Count(es[p]) == k && AllLong(es, p, p + k)
    requires forall j :: 1 <= j < k ==> Continues(es, p, k, j)
    ensures SoundParse(es, p, Ended(es, p, k))
  {
    hide Text, Units, Checksum;
    assert IsLong(es[p]);
  }

  lemma {:induction false} ParseSound(es: seq<Slot>, p: nat)
    requires p < |es| && IsLong(es[p])
    ensures SoundParse(es, p, Parse(es, p))
    decreases |es| - p
  {
    hide Text, Units;
    if Starts(es[p]) {
      var k := Count(es[p]);
      var m := Matching(es, p, k, 1);
      PiecesAreLong(es, p, k, m);
      if p + m == |es| {
        assert Parse(es, p) == Eof;
      } else if m < k && !IsLong(es[p + m]) {
        assert Parse(es, p) == NotLong(p + m);
      } else if m == k && !(es[p + k][0] != DELETED_FLAG && IsLong(es[p + k])) {
        assert Parse(es, p) == Ended(es, p, k);
        EndedSound(es, p, k);
      } else {
        assert Parse(es, p) == Parse(es, p + m);
        ParseSound(es, p + m);
        SoundFurther(es, p, p + m, Parse(es, p + m));
      }
    } else {
      assert Parse(es, p) == Invalid(p);
      assert IsVolume(es[p]);
    }
  }

  // ----- writing a long name -----------------------------------------------------------------

  function Filler(n: nat): (r: seq<u16>)
    ensures |r| == n
  {
    seq(n, _ => 0xFFFF)
  }

  /** The name as `xlate_to_uni` leaves it: a zero and filler up to a whole number of slots. */
  function Padded(u: seq<u16>): (r: seq<u16>)
    ensures |r| % 13 == 0 && |u| <= |r| < |u| + 13 && r[..|u|] == u
    ensures |r| > |u| ==> r[|u|] == 0 && forall i :: |u| < i < |r| ==> r[i] == 0xFFFF
  {
    if |u| % 13 == 0 then u else u + [0] + Filler(12 - |u| % 13)
  }

  /** Piece `i` (counted from the front of the name) of `u`. */
  function Piece(u: seq<u16>, i: nat): (r: seq<u16>)
    requires 13 * i + 13 <= |u|
    ensures |r| == 13
  {
    u[13 * i..13 * i + 13]
  }

  /** The id of the `j`-th of `n` slots. */
  function SlotId(n: nat, j: nat): byte
    requires j < n <= 20
  {
    (if j == 0 then 0x40 else 0) + n - j
  }

  /** The long slots of `vfat_build_slots` for padded units: last piece first. */
  function LongSlots(u: seq<u16>, sum: byte): (r: seq<Slot>)
    requires |u| % 13 == 0 && |u| <= 260
    ensures |r| == |u| / 13
  {
    var n := |u| / 13;
    seq(n, j requires 0 <= j < n => LongSlot(SlotId(n, j), sum, Piece(u, n - 1 - j)))
  }

  /** Slot `s` is the `j`-th of the `n` long slots for `u`. */
  predicate IsPiece(s: Slot, u: seq<u16>, sum: byte, n: nat, j: nat)
    requires |u| == 13 * n && j < n <= 20
  {
    IsLong(s) && AliasSum(s) == sum && s[0] == SlotId(n, j) && Units(s) == Piece(u, n - 1 - j)
  }

  lemma LongSlotsAt(u: seq<u16>, sum: byte, n: nat, j: nat)
    requires |u| == 13 * n && j < n <= 20
    ensures |LongSlots(u, sum)| == n && IsPiece(LongSlots(u, sum)[j], u, sum, n, j)
  {
    LongSlotUnits(SlotId(n, j), sum, Piece(u, n - 1 - j));
  }

  /** Slots `p ..` are those a create writes for name `u` with this short entry. */
  predicate WrittenAt(es: seq<Slot>, p: nat, u: seq<u16>, short: Slot) {
    var n := |Padded(u)| / 13;
    && 1 <= |u| <= FAT_LFN_LEN && p + n < |es|
    && es[p..p + n] == LongSlots(Padded(u), Checksum(ShortName(short)))
    && es[p + n] == short
  }

  predicate PieceAt(es: seq<Slot>, p: nat, w: seq<u16>, sum: byte, n: nat, j: nat)
    requires |w| == 13 * n && j < n <= 20
  {
    p + j < |es| && IsPiece(es[p + j], w, sum, n, j)
  }

  predicate Pieces(es: seq<Slot>, p: nat, w: seq<u16>, sum: byte, n: nat) {
    |w| == 13 * n && n <= 20 && forall j :: 0 <= j < n ==> PieceAt(es, p, w, sum, n, j)
  }

  lemma WrittenPieces(es: seq<Slot>, p: nat, u: seq<u16>, short: Slot, n: nat)
    requires WrittenAt(es, p, u, short) && |Padded(u)| == 13 * n
    ensures 1 <= n && Pieces(es, p, Padded(u), Checksum(ShortName(short)), n)
  {
    var w, sum := Padded(u), Checksum(ShortName(short));
    forall j | 0 <= j < n ensures PieceAt(es, p, w, sum, n, j) {
      LongSlotsAt(w, sum, n, j);
      assert es[p + j] == es[p..p + n][j];
    }
  }

  lemma PieceMarks(es: seq<Slot>, p: nat, w: seq<u16>, sum: byte, n: nat, j: nat)
    requires Pieces(es, p, w, sum, n) && j < n
    ensures p + j < |es| && IsLong(es[p + j]) && AliasSum(es[p + j]) == sum
    ensures Leads(es[p + j]) <==> j == 0
    ensures Count(es[p + j]) == n - j
    ensures Units(es[p + j]) == Piece(w, n - 1 - j)
  {
    assert PieceAt(es, p, w, sum, n, j);
  }

  /** Unit `x` of the text of `j` slots from `p` is that of the last `j` pieces of `w`, or the
      closing zero. */
  ghost predicate UnitIs(es: seq<Slot>, p: nat, w: seq<u16>, n: nat, j: nat, x: int) {
    && p + j <= |es| && j <= n && |w| == 13 * n && 0 <= x <= 13 * j
    && Text(es, p, j)[x] == if x == 13 * j then 0 else w[13 * (n - j) + x]
  }

  /** Text of one more slot: its own units, then those read before, but for a zero when it leads. */
  lemma TextUnit(es: seq<Slot>, p: nat, j: nat, x: nat)
    requires p + j < |es| && x < 13 * (j + 1) + 1
    ensures x < 13 ==> Text(es, p, j + 1)[x] == Units(es[p + j])[x]
    ensures x >= 13 ==> Text(es, p, j + 1)[x] == if x == 13 && Leads(es[p + j]) then 0 else Text(es, p, j)[x - 13]
  {
    var rest := Text(es, p, j);
    var tail := if Leads(es[p + j]) then [0] + rest[1..] else rest;
    assert Text(es, p, j + 1) == Units(es[p + j]) + tail;
  }

  lemma UnitBack(es: seq<Slot>, p: nat, w: seq<u16>, sum: byte, n: nat, j: nat, x: nat)
    requires Pieces(es, p, w, sum, n) && j < n && p + j < |es| && x <= 13 * (j + 1)
    requires x >= 13 ==> UnitIs(es, p, w, n, j, x - 13)
    ensures UnitIs(es, p, w, n, j + 1, x)
  {
    hide Text, Units, PieceAt, IsPiece, Leads, Count;
    PieceMarks(es, p, w, sum, n, j);
    TextUnit(es, p, j, x);
  }

  lemma NoUnits(es: seq<Slot>, p: nat, w: seq<u16>, n: nat)
    requires p <= |es| && |w| == 13 * n
    ensures UnitIs(es, p, w, n, 0, 0)
  {
    assert Text(es, p, 0) == [0];
  }

  lemma {:induction false} WrittenText(es: seq<Slot>, p: nat, w: seq<u16>, sum: byte, n: nat, j: nat, x: nat)
    requires Pieces(es, p, w, sum, n) && |w| == 13 * n && j <= n && p + j <= |es| && x <= 13 * j
    ensures UnitIs(es, p, w, n, j, x)
    decreases j
  {
    hide *;
    if j == 0 {
      NoUnits(es, p, w, n);
    } else {
      if x >= 13 {
        WrittenText(es, p, w, sum, n, j - 1, x - 13);
      }
      UnitBack(es, p, w, sum, n, j - 1, x);
    }
  }

  /** Read whole, the slots give the padded name. */
  lemma WrittenWhole(es: seq<Slot>, p: nat, w: seq<u16>, sum: byte, n: nat)
    requires Pieces(es, p, w, sum, n) && p + n <= |es|
    ensures Text(es, p, n) == w + [0]
  {
    var u := Text(es, p, n);
    forall x | 0 <= x < |u| ensures u[x] == (w + [0])[x] {
      WrittenText(es, p, w, sum, n, n, x);
    }
  }

  lemma WrittenRecord(es: seq<Slot>, p: nat, w: seq<u16>, sum: byte, n: nat)
    requires 1 <= n && Pieces(es, p, w, sum, n)
    requires p + n < |es| && LiveShort(es[p + n]) && Checksum(ShortName(es[p + n])) == sum
    ensures RecordAt(es, p, n)
  {
    PieceMarks(es, p, w, sum, n, 0);
    forall j | 1 <= j < n ensures Continues(es, p, n, j) {
      PieceMarks(es, p, w, sum, n, j);
    }
  }

  lemma {:induction false} ZeroEnds(u: seq<u16>, r: seq<u16>)
    requires 0 !in u && |u| < |r| && r[..|u|] == u && r[|u|] == 0
    ensures UpToZero(r) == u
    decreases |u|
  {
    if |u| > 0 {
      assert r[0] == r[..|u|][0] == u[0];
      assert r[1..][..|u| - 1] == r[..|u|][1..];
      ZeroEnds(u[1..], r[1..]);
    }
  }

  /** The long-name round trip: the slots written for a name of 1 to 255 units form one record,
      and reading it gives the name, the number of slots and the matching checksum, wherever
      in the directory they stand. */
  lemma LongNameRoundTrip(es: seq<Slot>, p: nat, u: seq<u16>, short: Slot)
    requires WrittenAt(es, p, u, short) && 0 !in u && LiveShort(short)
    ensures var n := |Padded(u)| / 13;
      && RecordAt(es, p, n) && UpToZero(Text(es, p, n)) == u
      && Parse(es, p) == Named(Text(es, p, n), n, p + n)
  {
    var n, sum := |Padded(u)| / 13, Checksum(ShortName(short));
    WrittenPieces(es, p, u, short, n);
    WrittenRecord(es, p, Padded(u), sum, n);
    ParseRecord(es, p, n);
    WrittenWhole(es, p, Padded(u), sum, n);
    ZeroEnds(u, Text(es, p, n));
  }

  // ----- stored names ----------------------------------------------------------------

  function Pad(s: seq<byte>, n: nat): (r: seq<byte>)
    requires |s| <= n
    ensures |r| == n && r[..|s|] == s && forall i :: |s| <= i < n ==> r[i] == SPACE
  {
    s + seq(n - |s|, _ => SPACE)
  }

  /** A leading 0xE5 would mark the entry deleted; it is stored as 0x05. */
  function StoreFirst(s: seq<byte>): (r: seq<byte>)
    ensures |r| == |s|
  {
    if |s| > 0 && s[0] == DELETED_FLAG then s[0 := 0x05] else s
  }

  /** A leading 0x05 is shown as 0xE5. */
  function ShowFirst(s: seq<byte>): (r: seq<byte>)
    ensures |r| == |s|
  {
    if |s| > 0 && s[0] == 0x05 then s[0 := DELETED_FLAG] else s
  }
}
