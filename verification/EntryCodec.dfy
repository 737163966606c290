/** FAT entries as bytes: where an entry lies, how it is read and how it is written.

    The C code shifts and masks; here a shift by k bits is a division or a multiplication
    by 2^k and a mask of the low k bits is a remainder.
  */
module EntryCodec {
  import opened Arithmetic

  type byte = x: int | 0 <= x < 256

  datatype FatType = Fat12 | Fat16 | Fat32

  const FAT_START_ENT := 2
  const FAT_ENT_FREE := 0
  const FAT_ENT_EOF := 0x0FFF_FFFF

  /** The smallest value that is read as "no next cluster". */
  function Bad(t: FatType): int {
    match t
    case Fat12 => 0xFF7
    case Fat16 => 0xFFF7
    case Fat32 => 0x0FFF_FFF7
  }

  /** What the driver writes on disk for FAT_ENT_EOF. */
  function EofMark(t: FatType): int {
    match t
    case Fat12 => 0xFFF
    case Fat16 => 0xFFFF
    case Fat32 => 0x0FFF_FFFF
  }

  function Width(t: FatType): nat {
    if t == Fat32 then 4 else 2
  }

  /** Byte offset of entry `e` from the start of the table (`ent_blocknr`). */
  function ByteOffset(t: FatType, e: nat): nat {
    match t
    case Fat12 => e + e / 2
    case Fat16 => 2 * e
    case Fat32 => 4 * e
  }

  predicate Fits(t: FatType, d: seq<byte>, base: nat, e: nat) {
    base + ByteOffset(t, e) + Width(t) <= |d|
  }

  function Le16(b0: byte, b1: byte): int {
    b0 + 0x100 * b1
  }

  function Le32(b0: byte, b1: byte, b2: byte, b3: byte): int {
    b0 + 0x100 * b1 + 0x1_0000 * b2 + 0x100_0000 * b3
  }

  /** The number stored in entry `e` of the table that starts at byte `base`. */
  function Raw(t: FatType, d: seq<byte>, base: nat, e: nat): int
    requires Fits(t, d, base, e)
  {
    var a := base + ByteOffset(t, e);
    match t
    case Fat12 => if e % 2 == 1 then d[a] / 16 + 16 * d[a + 1] else d[a] + 0x100 * (d[a + 1] % 16)
    case Fat16 => Le16(d[a], d[a + 1])
    case Fat32 => Le32(d[a], d[a + 1], d[a + 2], d[a + 3]) % 0x1000_0000
  }

  /** `ent_get`: every mark from "bad cluster" upwards reads as FAT_ENT_EOF. */
  function Entry(t: FatType, d: seq<byte>, base: nat, e: nat): int
    requires Fits(t, d, base, e)
  {
    var next := Raw(t, d, base, e);
    if next >= Bad(t) then FAT_ENT_EOF else next
  }

  /** Values `ent_put` is called with: the EOF mark, or a number that fits the entry. */
  predicate Putable(t: FatType, v: int) {
    v == FAT_ENT_EOF || 0 <= v <= EofMark(t)
  }

  function PutValue(t: FatType, v: int): int {
    if v == FAT_ENT_EOF then EofMark(t) else v
  }

  /** The table bytes after `ent_put` of `v` into entry `e`. */
  function Stored(t: FatType, d: seq<byte>, base: nat, e: nat, v: int): (r: seq<byte>)
    requires Fits(t, d, base, e) && Putable(t, v)
  {
    var a := base + ByteOffset(t, e);
    var n := PutValue(t, v);
    match t
    case Fat12 =>
      if e % 2 == 1
      then d[a := n * 16 % 256 + d[a] % 16][a + 1 := n / 16]
      else d[a := n % 256][a + 1 := d[a + 1] / 16 * 16 + n / 256]
    case Fat16 => d[a := n % 256][a + 1 := n / 256]
    case Fat32 =>
      var w := n + Le32(d[a], d[a + 1], d[a + 2], d[a + 3]) / 0x1000_0000 * 0x1000_0000;
      d[a := w % 256][a + 1 := w / 0x100 % 256][a + 2 := w / 0x1_0000 % 256][a + 3 := w / 0x100_0000]
  }

  /** Reading back an entry gives the value written, exactly when the value is the EOF mark
      or lies below the bad-cluster mark; anything in between comes back as EOF. */
  lemma PutGet(t: FatType, d: seq<byte>, base: nat, e: nat, v: int)
    requires Fits(t, d, base, e) && Putable(t, v)
    ensures |Stored(t, d, base, e, v)| == |d|
    ensures Entry(t, Stored(t, d, base, e, v), base, e) == (if v < Bad(t) then v else FAT_ENT_EOF)
    ensures Entry(t, Stored(t, d, base, e, v), base, e) == v <==> v < Bad(t) || v == FAT_ENT_EOF
  {
    match t {
      case Fat12 => PutRaw12(d, base, e, v);
      case Fat16 =>
      case Fat32 => PutRaw32(d, base, e, v);
    }
  }

  lemma PutRaw12(d: seq<byte>, base: nat, e: nat, v: int)
    requires Fits(Fat12, d, base, e) && Putable(Fat12, v)
    ensures Raw(Fat12, Stored(Fat12, d, base, e, v), base, e) == PutValue(Fat12, v)
  {
    var a := base + ByteOffset(Fat12, e);
    Nibbles(PutValue(Fat12, v), d[a], d[a + 1]);
  }

  lemma PutRaw32(d: seq<byte>, base: nat, e: nat, v: int)
    requires Fits(Fat32, d, base, e) && Putable(Fat32, v)
    ensures Raw(Fat32, Stored(Fat32, d, base, e, v), base, e) == PutValue(Fat32, v)
  {
    var a := base + ByteOffset(Fat32, e);
    var old32 := Le32(d[a], d[a + 1], d[a + 2], d[a + 3]);
    var w := PutValue(Fat32, v) + old32 / 0x1000_0000 * 0x1000_0000;
    var r := Stored(Fat32, d, base, e, v);
    TopBits(PutValue(Fat32, v), old32);
    Le32Split(w);
    assert Le32(r[a], r[a + 1], r[a + 2], r[a + 3]) == w;
  }

  /** The arithmetic of the shared byte. */
  lemma Nibbles(n: int, x: byte, y: byte)
    requires 0 <= n < 0x1000
    ensures 0 <= n * 16 % 256 + x % 16 < 256 && 0 <= y / 16 * 16 + n / 256 < 256
    ensures (n * 16 % 256 + x % 16) / 16 + 16 * (n / 16) == n
    ensures (n * 16 % 256 + x % 16) % 16 == x % 16
    ensures n % 256 + 0x100 * ((y / 16 * 16 + n / 256) % 16) == n
    ensures (y / 16 * 16 + n / 256) / 16 == y / 16
  {
    var lo := n % 16;
    assert n * 16 % 256 == lo * 16;
  }

  lemma TopBits(n: int, w: int)
    requires 0 <= n < 0x1000_0000 && 0 <= w < 0x1_0000_0000
    ensures 0 <= n + w / 0x1000_0000 * 0x1000_0000 < 0x1_0000_0000
    ensures (n + w / 0x1000_0000 * 0x1000_0000) % 0x1000_0000 == n
  {
  }

  lemma Le32Split(w: int)
    requires 0 <= w < 0x1_0000_0000
    ensures Le32(w % 256, w / 0x100 % 256, w / 0x1_0000 % 256, w / 0x100_0000) == w
  {
  }

  lemma SameBytes(t: FatType, d: seq<byte>, r: seq<byte>, base: nat, e: nat)
    requires Fits(t, d, base, e) && |r| == |d|
    requires forall i :: base + ByteOffset(t, e) <= i < base + ByteOffset(t, e) + Width(t) ==> r[i] == d[i]
    ensures Entry(t, r, base, e) == Entry(t, d, base, e)
  {
  }

  /** Entries that share no byte. */
  lemma PutFar(t: FatType, d: seq<byte>, base: nat, e: nat, v: int, e': nat)
    requires Fits(t, d, base, e) && Fits(t, d, base, e') && Putable(t, v)
    requires ByteOffset(t, e) + Width(t) <= ByteOffset(t, e') || ByteOffset(t, e') + Width(t) <= ByteOffset(t, e)
    ensures |Stored(t, d, base, e, v)| == |d|
    ensures Entry(t, Stored(t, d, base, e, v), base, e') == Entry(t, d, base, e')
  {
    var a, r := base + ByteOffset(t, e'), Stored(t, d, base, e, v);
    PutGet(t, d, base, e, v);
    forall i | a <= i < a + Width(t) ensures r[i] == d[i] {
      PutFrame(t, d, base, e, v, i);
    }
    SameBytes(t, d, r, base, e');
  }

  /** Neighbours of a 12-bit table that share a byte. */
  lemma PutBefore12(d: seq<byte>, base: nat, e: nat, v: int)
    requires e % 2 == 1 && Fits(Fat12, d, base, e) && Fits(Fat12, d, base, e - 1) && Putable(Fat12, v)
    ensures Raw(Fat12, Stored(Fat12, d, base, e, v), base, e - 1) == Raw(Fat12, d, base, e - 1)
  {
    var a := base + ByteOffset(Fat12, e);
    Nibbles(PutValue(Fat12, v), d[a], 0);
    assert base + ByteOffset(Fat12, e - 1) == a - 1;
  }

  lemma PutAfter12(d: seq<byte>, base: nat, e: nat, v: int)
    requires e % 2 == 0 && Fits(Fat12, d, base, e) && Fits(Fat12, d, base, e + 1) && Putable(Fat12, v)
    ensures Raw(Fat12, Stored(Fat12, d, base, e, v), base, e + 1) == Raw(Fat12, d, base, e + 1)
  {
    var a := base + ByteOffset(Fat12, e);
    Nibbles(PutValue(Fat12, v), 0, d[a + 1]);
    assert base + ByteOffset(Fat12, e + 1) == a + 1;
  }

  /** Writing one entry leaves every other entry's decoded value alone, although the
      neighbours of a 12-bit table share a byte. */
  lemma PutOther(t: FatType, d: seq<byte>, base: nat, e: nat, v: int, e': nat)
    requires Fits(t, d, base, e) && Fits(t, d, base, e') && Putable(t, v) && e != e'
    ensures |Stored(t, d, base, e, v)| == |d|
    ensures Entry(t, Stored(t, d, base, e, v), base, e') == Entry(t, d, base, e')
  {
    if t == Fat12 && e % 2 == 1 && e' == e - 1 {
      PutBefore12(d, base, e, v);
    } else if t == Fat12 && e % 2 == 0 && e' == e + 1 {
      PutAfter12(d, base, e, v);
    } else {
      Apart(t, e, e');
      PutFar(t, d, base, e, v, e');
    }
  }

  lemma Apart(t: FatType, e: nat, e': nat)
    requires e != e' && !(t == Fat12 && ((e % 2 == 1 && e' == e - 1) || (e % 2 == 0 && e' == e + 1)))
    ensures ByteOffset(t, e) + Width(t) <= ByteOffset(t, e') || ByteOffset(t, e') + Width(t) <= ByteOffset(t, e)
  {
  }

  /** Only the bytes of the entry change. */
  lemma PutFrame(t: FatType, d: seq<byte>, base: nat, e: nat, v: int, i: nat)
    requires Fits(t, d, base, e) && Putable(t, v) && i < |d|
    requires !(base + ByteOffset(t, e) <= i < base + ByteOffset(t, e) + Width(t))
    ensures |Stored(t, d, base, e, v)| == |d| && Stored(t, d, base, e, v)[i] == d[i]
  {
  }

  /** The bytes the end of a chain is marked with: all bits of the entry are set, and the neighbour's
      half byte, or the four reserved bits, are kept. */
  lemma EofBits(t: FatType, d: seq<byte>, base: nat, e: nat)
    requires Fits(t, d, base, e)
    ensures Putable(t, FAT_ENT_EOF)
    ensures var r, a := Stored(t, d, base, e, FAT_ENT_EOF), base + ByteOffset(t, e);
      && |r| == |d|
      && match t
         case Fat12 =>
           if e % 2 == 0
           then r[a] == 0xFF && r[a + 1] % 16 == 0xF && r[a + 1] / 16 == d[a + 1] / 16
           else r[a] / 16 == 0xF && r[a] % 16 == d[a] % 16 && r[a + 1] == 0xFF
         case Fat16 => r[a] == 0xFF && r[a + 1] == 0xFF
         case Fat32 =>
           && r[a] == 0xFF && r[a + 1] == 0xFF && r[a + 2] == 0xFF
           && r[a + 3] % 16 == 0xF && r[a + 3] / 16 == d[a + 3] / 16
  {
    match t {
      case Fat12 => EofBits12(d, base, e);
      case Fat16 =>
      case Fat32 => EofBits32(d, base, e);
    }
  }

  lemma EofBits12(d: seq<byte>, base: nat, e: nat)
    requires Fits(Fat12, d, base, e)
    ensures var r, a := Stored(Fat12, d, base, e, FAT_ENT_EOF), base + ByteOffset(Fat12, e);
      && |r| == |d|
      && (if e % 2 == 0
          then r[a] == 0xFF && r[a + 1] % 16 == 0xF && r[a + 1] / 16 == d[a + 1] / 16
          else r[a] / 16 == 0xF && r[a] % 16 == d[a] % 16 && r[a + 1] == 0xFF)
  {
    var a := base + ByteOffset(Fat12, e);
    Nibbles(0xFFF, d[a], d[a + 1]);
  }

  lemma EofBits32(d: seq<byte>, base: nat, e: nat)
    requires Fits(Fat32, d, base, e)
    ensures var r, a := Stored(Fat32, d, base, e, FAT_ENT_EOF), base + ByteOffset(Fat32, e);
      && |r| == |d| && r[a] == 0xFF && r[a + 1] == 0xFF && r[a + 2] == 0xFF
      && r[a + 3] % 16 == 0xF && r[a + 3] / 16 == d[a + 3] / 16
  {
    var a := base + ByteOffset(Fat32, e);
    TopByte(d[a], d[a + 1], d[a + 2], d[a + 3]);
  }

  lemma TopByte(b0: byte, b1: byte, b2: byte, b3: byte)
    ensures Le32(b0, b1, b2, b3) / 0x1000_0000 == b3 / 16
  {
    assert b3 == b3 / 16 * 16 + b3 % 16;
  }

  /** Which numbers read as what: those below the mark of a bad cluster as themselves, that mark and
      all above it as the end of a chain. */
  lemma ReadsAs(t: FatType, d: seq<byte>, base: nat, e: nat)
    requires Fits(t, d, base, e)
    ensures var bad := match t { case Fat12 => 0xFF7 case Fat16 => 0xFFF7 case Fat32 => 0x0FFF_FFF7 };
      Entry(t, d, base, e) == if Raw(t, d, base, e) < bad then Raw(t, d, base, e) else FAT_ENT_EOF
  {
  }

  // ----- entries as a stream of bits ----------------------------------------------------------

  function Pow2(i: nat): (p: nat)
    ensures p > 0
  {
    if i == 0 then 1 else 2 * Pow2(i - 1)
  }

  /** Bit `i` of a number. */
  function Bit(n: nat, i: nat): nat { if i == 0 then n % 2 else Bit(n / 2, i - 1) }

  /** A number in two parts, the lower of `k` bits. */
  predicate Parts(n: nat, lo: nat, hi: nat, k: nat) { lo < Pow2(k) && n == lo + Pow2(k) * hi }

  lemma PartsHalved(n: nat, lo: nat, hi: nat, k: nat)
    requires k > 0 && Parts(n, lo, hi, k)
    ensures Parts(n / 2, lo / 2, hi, k - 1) && n % 2 == lo % 2
  {
    var p := Pow2(k - 1);
    assert Pow2(k) * hi == 2 * (p * hi);
  }

  lemma PartsAre(n: nat, lo: nat, hi: nat, k: nat, p: nat)
    requires p == Pow2(k) && lo < p && n == lo + p * hi
    ensures Parts(n, lo, hi, k)
  {
  }

  /** The lower bits of such a number are those of one part, the others those of the other. */
  lemma {:induction false} BitOfParts(n: nat, lo: nat, hi: nat, k: nat, i: nat)
    requires Parts(n, lo, hi, k)
    ensures Bit(n, i) == if i < k then Bit(lo, i) else Bit(hi, i - k)
    decreases k
  {
    if k > 0 {
      hide Parts;
      PartsHalved(n, lo, hi, k);
      if i > 0 {
        BitOfParts(n / 2, lo / 2, hi, k - 1, i - 1);
      }
    }
  }

  /** How many bits an entry takes in the table, and how many of them are its number. */
  function Bits(t: FatType): nat { match t case Fat12 => 12 case Fat16 => 16 case Fat32 => 32 }

  function NumberBits(t: FatType): nat { match t case Fat12 => 12 case Fat16 => 16 case Fat32 => 28 }

  /** A table is a stream of bits, lowest first: entry `e` is the bits from `e` times its size on, read as a
      number with the lowest bit first; of 32 bits the upper four are not part of the number. */
  lemma EntryBits(t: FatType, d: seq<byte>, base: nat, e: nat, i: nat)
    requires Fits(t, d, base, e) && i < NumberBits(t)
    ensures var at := e * Bits(t) + i;
      base + at / 8 < |d| && Raw(t, d, base, e) >= 0 && Bit(Raw(t, d, base, e), i) == Bit(d[base + at / 8], at % 8)
  {
    hide Bit;
    var a := base + ByteOffset(t, e);
    match t {
      case Fat12 => EntryBits12(e, d[a], d[a + 1], i);
      case Fat16 =>
        PlaceIn(e, 2, i);
        EntryBits16(d[a], d[a + 1], i);
      case Fat32 =>
        PlaceIn(e, 4, i);
        EntryBits32(d[a], d[a + 1], d[a + 2], d[a + 3], i);
    }
  }

  lemma Powers()
    ensures Pow2(4) == 16 && Pow2(8) == 0x100 && Pow2(12) == 0x1000 && Pow2(16) == 0x1_0000
    ensures Pow2(24) == 0x100_0000 && Pow2(28) == 0x1000_0000
  {
    assert Pow2(4) == 16;
    assert Pow2(8) == 0x100;
    assert Pow2(12) == 0x1000;
    assert Pow2(16) == 0x1_0000;
    assert Pow2(20) == 0x10_0000;
    assert Pow2(24) == 0x100_0000;
  }

  lemma EntryBits12(e: nat, b0: byte, b1: byte, i: nat)
    requires i < 12
    ensures var n := if e % 2 == 1 then b0 / 16 + 16 * b1 else b0 + 0x100 * (b1 % 16);
      var at := e * 12 + i;
      && at / 8 == e + e / 2 + (if e % 2 * 4 + i < 8 then 0 else 1)
      && Bit(n, i) == Bit(if e % 2 * 4 + i < 8 then b0 else b1, at % 8)
  {
    hide Bit, Pow2, Parts;
    Powers();
    if e % 2 == 1 {
      OddPlace(e, i);
      OddBits(b0, b1, i);
    } else {
      EvenPlace(e, i);
      EvenBits(b0, b1, i);
    }
  }

  lemma OddPlace(e: nat, i: nat)
    requires e % 2 == 1 && i < 12
    ensures (e * 12 + i) / 8 == e + e / 2 + (if 4 + i < 8 then 0 else 1)
    ensures (e * 12 + i) % 8 == if 4 + i < 8 then 4 + i else i - 4
  {
    assert e * 12 + i == (e + e / 2) * 8 + 4 + i;
  }

  lemma EvenPlace(e: nat, i: nat)
    requires e % 2 == 0 && i < 12
    ensures (e * 12 + i) / 8 == e + e / 2 + (if i < 8 then 0 else 1)
    ensures (e * 12 + i) % 8 == if i < 8 then i else i - 8
  {
    assert e * 12 + i == (e + e / 2) * 8 + i;
  }

  lemma OddBits(b0: byte, b1: byte, i: nat)
    requires i < 12
    ensures Bit(b0 / 16 + 16 * b1, i) == if i < 4 then Bit(b0, i + 4) else Bit(b1, i - 4)
  {
    hide Bit, Pow2, Parts;
    Powers();
    PartsAre(b0 / 16 + 16 * b1, b0 / 16, b1, 4, 16);
    BitOfParts(b0 / 16 + 16 * b1, b0 / 16, b1, 4, i);
    PartsAre(b0, b0 % 16, b0 / 16, 4, 16);
    BitOfParts(b0, b0 % 16, b0 / 16, 4, i + 4);
  }

  lemma EvenBits(b0: byte, b1: byte, i: nat)
    requires i < 12
    ensures Bit(b0 + 0x100 * (b1 % 16), i) == if i < 8 then Bit(b0, i) else Bit(b1, i - 8)
  {
    hide Bit, Pow2, Parts;
    Powers();
    PartsAre(b0 + 0x100 * (b1 % 16), b0, b1 % 16, 8, 0x100);
    BitOfParts(b0 + 0x100 * (b1 % 16), b0, b1 % 16, 8, i);
    PartsAre(b1, b1 % 16, b1 / 16, 4, 16);
    if i >= 8 {
      BitOfParts(b1, b1 % 16, b1 / 16, 4, i - 8);
    }
  }

  lemma EntryBits16(b0: byte, b1: byte, i: nat)
    requires i < 16
    ensures Bit(Le16(b0, b1), i) == if i < 8 then Bit(b0, i) else Bit(b1, i - 8)
  {
    hide Bit, Pow2, Parts;
    Powers();
    PartsAre(Le16(b0, b1), b0, b1, 8, 0x100);
    BitOfParts(Le16(b0, b1), b0, b1, 8, i);
  }

  lemma EntryBits32(b0: byte, b1: byte, b2: byte, b3: byte, i: nat)
    requires i < 28
    ensures Bit(Le32(b0, b1, b2, b3) % 0x1000_0000, i)
      == if i < 8 then Bit(b0, i) else if i < 16 then Bit(b1, i - 8) else if i < 24 then Bit(b2, i - 16)
         else Bit(b3, i - 24)
  {
    hide Bit, Pow2, Parts;
    Powers();
    var n, lo, hi := Le32(b0, b1, b2, b3), Le16(b0, b1), Le16(b2, b3);
    PartsAre(n, n % 0x1000_0000, n / 0x1000_0000, 28, 0x1000_0000);
    BitOfParts(n, n % 0x1000_0000, n / 0x1000_0000, 28, i);
    PartsAre(n, lo, hi, 16, 0x1_0000);
    BitOfParts(n, lo, hi, 16, i);
    if i < 16 {
      EntryBits16(b0, b1, i);
    } else {
      EntryBits16(b2, b3, i - 16);
    }
  }

  lemma PlaceIn(e: nat, w: nat, i: nat)
    requires (w == 2 || w == 4) && i < 8 * w
    ensures (e * (8 * w) + i) / 8 == e * w + i / 8 && (e * (8 * w) + i) % 8 == i % 8
  {
    assert e * (8 * w) + i == (e * w) * 8 + i;
  }
}
