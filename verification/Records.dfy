/** A directory as a set of records: a record is a live short entry together with the pieces of
    its long name. Searching (`fat_search_long`) is related to that set, and so is every change
    the driver makes to the slots. */
module DirRecords {
  import opened EntryCodec
  import opened DirSlots

  /** How names are shown and compared: the text `fat_parse_short` extracts from an entry, the
      text of a long name, and `fat_name_match`. */
  datatype Reader = Reader(
    short: Slot -> seq<byte>, long: seq<u16> -> seq<byte>, same: (seq<byte>, seq<byte>) -> bool)

  /** Where a search ended: `slot_off` (in slots) and `nr_slots`, or -ENOENT. */
  datatype Hit = Hit(off: nat, slots: nat) | Miss

  predicate ShortMatches(rd: Reader, name: seq<byte>, s: Slot) {
    rd.short(s) != [] && rd.same(name, rd.short(s))
  }

  /** Does the entry `s`, with `n` pieces of long name in `units`, bear this name? */
  predicate Accepts(rd: Reader, name: seq<byte>, s: Slot, n: nat, units: seq<u16>) {
    rd.short(s) != [] && (rd.same(name, rd.short(s)) || (n > 0 && rd.same(name, rd.long(UpToZero(units)))))
  }

  predicate PassedOver(s: Slot) {
    s[0] == DELETED_FLAG || (!IsLong(s) && (IsVolume(s) || IsFree(s)))
  }

  /** `fat_search_long` from slot `p`, over any contents. */
  function Search(es: seq<Slot>, p: nat, rd: Reader, name: seq<byte>): Hit
    requires p <= |es|
    decreases |es| - p
  {
    if p == |es| then Miss
    else if PassedOver(es[p]) then Search(es, p + 1, rd, name)
    else if !IsLong(es[p]) then
      if Accepts(rd, name, es[p], 0, []) then Hit(p, 1) else Search(es, p + 1, rd, name)
    else
      ParseSound(es, p);
      SearchParsed(es, p, Parse(es, p), rd, name)
  }

  function SearchParsed(es: seq<Slot>, p: nat, r: Parsed, rd: Reader, name: seq<byte>): Hit
    requires SoundParse(es, p, r)
    decreases |es| - p, 0
  {
    match r
    case Named(u, n, at) =>
      if Accepts(rd, name, es[at], n, u) then Hit(at - n, n + 1) else Search(es, at + 1, rd, name)
    case Invalid(at) => Search(es, at + 1, rd, name)
    case NotLong(at) => Search(es, at, rd, name)
    case Eof => Miss
  }

  predicate NoShort(es: seq<Slot>, p: nat, q: nat, rd: Reader, name: seq<byte>) {
    q <= |es| && forall i :: p <= i < q && LiveShort(es[i]) ==> !ShortMatches(rd, name, es[i])
  }

  /** What a search result says about any directory, tidy or not. */
  ghost predicate SoundSearch(es: seq<Slot>, p: nat, h: Hit, rd: Reader, name: seq<byte>) {
    match h
    case Hit(off, n) =>
      && p <= off && 1 <= n && off + n <= |es| && LiveShort(es[off + n - 1])
      && (n > 1 ==> RecordAt(es, off, n - 1))
      && Accepts(rd, name, es[off + n - 1], n - 1, if n > 1 then Text(es, off, n - 1) else [])
      && NoShort(es, p, off + n - 1, rd, name)
    case Miss => NoShort(es, p, |es|, rd, name)
  }

  lemma SoundLater(es: seq<Slot>, p: nat, q: nat, h: Hit, rd: Reader, name: seq<byte>)
    requires p <= q && NoShort(es, p, q, rd, name) && SoundSearch(es, q, h, rd, name)
    ensures SoundSearch(es, p, h, rd, name)
  {
  }

  lemma LongNoShort(es: seq<Slot>, p: nat, q: nat, rd: Reader, name: seq<byte>)
    requires AllLong(es, p, q)
    ensures NoShort(es, p, q, rd, name)
  {
    forall i | p <= i < q ensures !LiveShort(es[i]) {
      assert IsLong(es[i]);
    }
  }

  /** In any directory: a hit names a live short entry and the whole long name before it, it
      does bear the name, and no live short entry before it does; a miss means that no live
      short entry at all bears the name. */
  lemma {:induction false} SearchSound(es: seq<Slot>, p: nat, rd: Reader, name: seq<byte>)
    requires p <= |es|
    ensures SoundSearch(es, p, Search(es, p, rd, name), rd, name)
    decreases |es| - p
  {
    hide Text, Units, RecordAt, UpToZero, Parse;
    if p == |es| {
    } else if PassedOver(es[p]) || !IsLong(es[p]) {
      if PassedOver(es[p]) || !Accepts(rd, name, es[p], 0, []) {
        SearchSound(es, p + 1, rd, name);
        SoundLater(es, p, p + 1, Search(es, p + 1, rd, name), rd, name);
      }
    } else {
      ParseSound(es, p);
      ParsedSound(es, p, Parse(es, p), rd, name);
    }
  }

  lemma {:induction false} ParsedSound(es: seq<Slot>, p: nat, r: Parsed, rd: Reader, name: seq<byte>)
    requires SoundParse(es, p, r)
    ensures SoundSearch(es, p, SearchParsed(es, p, r, rd, name), rd, name)
    decreases |es| - p, 0
  {
    hide Text, Units, RecordAt, UpToZero, Parse;
    match r {
      case Named(u, n, at) =>
        LongNoShort(es, p, at, rd, name);
        if !Accepts(rd, name, es[at], n, u) {
          SearchSound(es, at + 1, rd, name);
          SoundLater(es, p, at + 1, Search(es, at + 1, rd, name), rd, name);
        } else if n == 0 {
          NoPieces(rd, name, es[at], u);
        }
      case Invalid(at) =>
        LongNoShort(es, p, at, rd, name);
        SearchSound(es, at + 1, rd, name);
        SoundLater(es, p, at + 1, Search(es, at + 1, rd, name), rd, name);
      case NotLong(at) =>
        LongNoShort(es, p, at, rd, name);
        SearchSound(es, at, rd, name);
        SoundLater(es, p, at, Search(es, at, rd, name), rd, name);
      case Eof =>
        LongNoShort(es, p, |es|, rd, name);
    }
  }

  lemma NoPieces(rd: Reader, name: seq<byte>, s: Slot, u: seq<u16>)
    ensures Accepts(rd, name, s, 0, u) == Accepts(rd, name, s, 0, [])
  {
  }

  // ----- tidy directories -----------------------------------------------------------------

  /** A record: its first slot, how many pieces of long name it has, its short entry and the
      long name. */
  datatype Rec = Rec(off: nat, pieces: nat, short: Slot, units: seq<u16>)

  predicate Skipped(s: Slot) { IsFree(s) || (IsVolume(s) && !IsLong(s)) }

  /** From slot `p` on, every piece of a long name in use belongs to a whole record. */
  predicate Tidy(es: seq<Slot>, p: nat)
    decreases |es| - p
  {
    if p >= |es| then true
    else if Skipped(es[p]) || !IsLong(es[p]) then Tidy(es, p + 1)
    else RecordAt(es, p, Count(es[p])) && Tidy(es, p + Count(es[p]) + 1)
  }

  function LongRec(es: seq<Slot>, p: nat, k: nat): Rec
    requires p + k < |es|
  {
    Rec(p, k, es[p + k], UpToZero(Text(es, p, k)))
  }

  /** The records from slot `p` on. */
  function Recs(es: seq<Slot>, p: nat): set<Rec>
    requires Tidy(es, p)
    decreases |es| - p
  {
    if p >= |es| then {}
    else if Skipped(es[p]) then Recs(es, p + 1)
    else if !IsLong(es[p]) then {Rec(p, 0, es[p], [])} + Recs(es, p + 1)
    else {LongRec(es, p, Count(es[p]))} + Recs(es, p + Count(es[p]) + 1)
  }

  predicate RecAccepts(rd: Reader, name: seq<byte>, r: Rec) {
    rd.short(r.short) != [] && (rd.same(name, rd.short(r.short)) || (r.pieces > 0 && rd.same(name, rd.long(r.units))))
  }

  /** The record is the first of those that bear the name. */
  ghost predicate FirstOf(r: Rec, rs: set<Rec>, rd: Reader, name: seq<byte>) {
    && r in rs && RecAccepts(rd, name, r)
    && forall x :: x in rs && x != r && RecAccepts(rd, name, x) ==> r.off < x.off
  }

  ghost predicate HitIn(h: Hit, rs: set<Rec>, rd: Reader, name: seq<byte>) {
    match h
    case Hit(off, n) => exists r :: FirstOf(r, rs, rd, name) && r.off == off && r.pieces + 1 == n
    case Miss => forall r :: r in rs ==> !RecAccepts(rd, name, r)
  }

  lemma NothingHit(es: seq<Slot>, rd: Reader, name: seq<byte>)
    requires Tidy(es, |es|)
    ensures HitIn(Search(es, |es|, rd, name), Recs(es, |es|), rd, name)
  {
  }

  /** The first record bears the name, or the answer is that for the others. */
  lemma FirstOrRest(r: Rec, rest: set<Rec>, h: Hit, rd: Reader, name: seq<byte>)
    requires HitIn(h, rest, rd, name) && forall x :: x in rest ==> r.off < x.off
    ensures HitIn(if RecAccepts(rd, name, r) then Hit(r.off, r.pieces + 1) else h, {r} + rest, rd, name)
  {
    if RecAccepts(rd, name, r) {
      assert FirstOf(r, {r} + rest, rd, name);
    } else if h.Hit? {
      var x :| FirstOf(x, rest, rd, name) && x.off == h.off && x.pieces + 1 == h.slots;
      assert FirstOf(x, {r} + rest, rd, name);
    }
  }

  /** A piece whose id is zero is no piece: the parse gives it up at once. */
  lemma ZeroPiece(es: seq<Slot>, p: nat, rd: Reader, name: seq<byte>)
    requires p < |es| && IsLong(es[p]) && es[p][0] == 0
    ensures Search(es, p, rd, name) == Search(es, p + 1, rd, name)
  {
    assert Parse(es, p) == Invalid(p);
    ParseSound(es, p);
  }

  lemma SearchOverSkipped(es: seq<Slot>, p: nat, rd: Reader, name: seq<byte>)
    requires p < |es| && Skipped(es[p])
    ensures Search(es, p, rd, name) == Search(es, p + 1, rd, name)
  {
    if !PassedOver(es[p]) {
      ZeroPiece(es, p, rd, name);
    }
  }

  lemma SearchOverShort(es: seq<Slot>, p: nat, rd: Reader, name: seq<byte>)
    requires p < |es| && !Skipped(es[p]) && !IsLong(es[p])
    ensures Search(es, p, rd, name)
         == if RecAccepts(rd, name, Rec(p, 0, es[p], [])) then Hit(p, 1) else Search(es, p + 1, rd, name)
  {
  }

  lemma SearchOverRecord(es: seq<Slot>, p: nat, k: nat, rd: Reader, name: seq<byte>)
    requires RecordAt(es, p, k) && !Skipped(es[p])
    ensures Search(es, p, rd, name)
         == if RecAccepts(rd, name, LongRec(es, p, k)) then Hit(p, k + 1) else Search(es, p + k + 1, rd, name)
  {
    hide Text, Units, UpToZero;
    ParseRecord(es, p, k);
    ParseSound(es, p);
    assert Search(es, p, rd, name) == SearchParsed(es, p, Parse(es, p), rd, name);
  }

  lemma {:induction false} RecsAfter(es: seq<Slot>, p: nat, r: Rec)
    requires Tidy(es, p) && r in Recs(es, p)
    ensures p <= r.off && r.off + r.pieces < |es| && r.short == es[r.off + r.pieces] && LiveShort(r.short)
    ensures r.pieces > 0 ==> RecordAt(es, r.off, r.pieces)
    decreases |es| - p
  {
    hide Text, UpToZero;
    if Skipped(es[p]) {
      RecsAfter(es, p + 1, r);
    } else if !IsLong(es[p]) {
      if r.off != p {
        RecsAfter(es, p + 1, r);
      } else if r in Recs(es, p + 1) {
        RecsAfter(es, p + 1, r);
      }
    } else if r != LongRec(es, p, Count(es[p])) {
      RecsAfter(es, p + Count(es[p]) + 1, r);
    }
  }

  lemma RecsBehind(es: seq<Slot>, p: nat)
    requires Tidy(es, p)
    ensures forall r :: r in Recs(es, p) ==> p <= r.off
  {
    forall r | r in Recs(es, p) ensures p <= r.off {
      RecsAfter(es, p, r);
    }
  }

  /** In a tidy directory a search finds the first record that bears the name, if there is one. */
  lemma {:induction false} SearchFinds(es: seq<Slot>, p: nat, rd: Reader, name: seq<byte>)
    requires p <= |es| && Tidy(es, p)
    ensures HitIn(Search(es, p, rd, name), Recs(es, p), rd, name)
    decreases |es| - p
  {
    hide Search, RecAccepts, HitIn, Parse, Skipped, PassedOver;
    if p == |es| {
      NothingHit(es, rd, name);
    } else if Skipped(es[p]) {
      SearchFinds(es, p + 1, rd, name);
      SearchOverSkipped(es, p, rd, name);
    } else if !IsLong(es[p]) {
      SearchFinds(es, p + 1, rd, name);
      SearchOverShort(es, p, rd, name);
      RecsBehind(es, p + 1);
      FirstOrRest(Rec(p, 0, es[p], []), Recs(es, p + 1), Search(es, p + 1, rd, name), rd, name);
    } else {
      var k := Count(es[p]);
      SearchFinds(es, p + k + 1, rd, name);
      SearchOverRecord(es, p, k, rd, name);
      RecsBehind(es, p + k + 1);
      FirstOrRest(LongRec(es, p, k), Recs(es, p + k + 1), Search(es, p + k + 1, rd, name), rd, name);
    }
  }

  lemma InsideLong(es: seq<Slot>, p: nat, k: nat, j: nat)
    requires RecordAt(es, p, k) && j < k
    ensures IsLong(es[p + j]) && !IsFree(es[p + j]) && !LiveShort(es[p + j])
  {
    hide Text, Units, Checksum;
    if j > 0 {
      assert Continues(es, p, k, j);
    }
  }

  // ----- what changes of slots do to the records --------------------------------------------

  predicate SameSlots(es: seq<Slot>, es': seq<Slot>, p: nat, q: nat) {
    q <= |es| && q <= |es'| && forall i :: p <= i < q ==> es[i] == es'[i]
  }

  lemma {:induction false} TextFrame(es: seq<Slot>, es': seq<Slot>, p: nat, j: nat)
    requires SameSlots(es, es', p, p + j)
    ensures Text(es, p, j) == Text(es', p, j)
  {
    hide Units;
    if j > 0 {
      TextFrame(es, es', p, j - 1);
      assert es[p + j - 1] == es'[p + j - 1];
    }
  }

  lemma RecordFrame(es: seq<Slot>, es': seq<Slot>, p: nat, k: nat)
    requires RecordAt(es, p, k) && SameSlots(es, es', p, p + k + 1)
    ensures RecordAt(es', p, k) && LongRec(es', p, k) == LongRec(es, p, k)
  {
    TextFrame(es, es', p, k);
    forall j | 1 <= j < k ensures Continues(es', p, k, j) {
      assert Continues(es, p, k, j);
      assert es[p + j] == es'[p + j];
    }
  }

  lemma {:induction false} FreeTail(es: seq<Slot>, p: nat)
    requires forall i :: p <= i < |es| ==> IsFree(es[i])
    ensures Tidy(es, p) && Recs(es, p) == {}
    decreases |es| - p
  {
    if p < |es| {
      FreeTail(es, p + 1);
    }
  }

  lemma {:induction false} SkipFree(es: seq<Slot>, p: nat, m: nat)
    requires p + m <= |es| && forall i :: p <= i < p + m ==> IsFree(es[i])
    ensures Tidy(es, p) <==> Tidy(es, p + m)
    ensures Tidy(es, p) ==> Recs(es, p) == Recs(es, p + m)
    decreases m
  {
    if m > 0 {
      SkipFree(es, p + 1, m - 1);
    }
  }

  /** Slots that are free before and after may differ, and free slots may be added at the end. */
  ghost predicate OnlyFreeDiffer(es: seq<Slot>, es': seq<Slot>, p: nat) {
    && |es| <= |es'|
    && (forall i :: p <= i < |es| ==> es'[i] == es[i] || (IsFree(es[i]) && IsFree(es'[i])))
    && (forall i :: p <= i && |es| <= i < |es'| ==> IsFree(es'[i]))
  }

  lemma {:induction false} FreeDifferences(es: seq<Slot>, es': seq<Slot>, p: nat)
    requires Tidy(es, p) && OnlyFreeDiffer(es, es', p)
    ensures Tidy(es', p) && Recs(es', p) == Recs(es, p)
    decreases |es| - p
  {
    hide Text, Units, RecordAt, LongRec;
    if p >= |es| {
      FreeTail(es', p);
    } else if Skipped(es[p]) {
      FreeDifferences(es, es', p + 1);
    } else if !IsLong(es[p]) {
      FreeDifferences(es, es', p + 1);
    } else {
      var k := Count(es[p]);
      RecordKept(es, es', p, k);
      FreeDifferences(es, es', p + k + 1);
    }
  }

  lemma RecordKept(es: seq<Slot>, es': seq<Slot>, p: nat, k: nat)
    requires RecordAt(es, p, k) && OnlyFreeDiffer(es, es', p)
    ensures RecordAt(es', p, k) && LongRec(es', p, k) == LongRec(es, p, k)
  {
    forall i | p <= i < p + k + 1 ensures es[i] == es'[i] {
      if i < p + k {
        InsideLong(es, p, k, i - p);
      }
    }
    RecordFrame(es, es', p, k);
  }

  /** Slots `off ..` of `es'` are the one record `r`. */
  ghost predicate IsRec(es: seq<Slot>, r: Rec) {
    && r.off + r.pieces < |es|
    && (if r.pieces == 0 then r.units == [] && r.short == es[r.off] && LiveShort(r.short)
        else RecordAt(es, r.off, r.pieces) && r == LongRec(es, r.off, r.pieces))
  }

  /** Only slots `off .. off + m` differ. */
  ghost predicate OnlyAt(es: seq<Slot>, es': seq<Slot>, off: nat, m: nat) {
    |es| == |es'| && off + m <= |es| && SameSlots(es, es', 0, off) && SameSlots(es, es', off + m, |es|)
  }

  predicate AllFree(es: seq<Slot>, off: nat, m: nat) {
    off + m <= |es| && forall i :: off <= i < off + m ==> IsFree(es[i])
  }

  function ItemLen(es: seq<Slot>, p: nat): (n: nat)
    requires p < |es|
    ensures n >= 1
  {
    if Skipped(es[p]) || !IsLong(es[p]) then 1 else Count(es[p]) + 1
  }

  predicate ItemOk(es: seq<Slot>, p: nat)
    requires p < |es|
  {
    Skipped(es[p]) || !IsLong(es[p]) || RecordAt(es, p, Count(es[p]))
  }

  function ItemRecs(es: seq<Slot>, p: nat): set<Rec>
    requires p < |es| && ItemOk(es, p)
  {
    if Skipped(es[p]) then {}
    else if !IsLong(es[p]) then {Rec(p, 0, es[p], [])}
    else {LongRec(es, p, Count(es[p]))}
  }

  lemma TidyItem(es: seq<Slot>, p: nat)
    requires p < |es|
    ensures Tidy(es, p) <==> ItemOk(es, p) && Tidy(es, p + ItemLen(es, p))
    ensures Tidy(es, p) ==> Recs(es, p) == ItemRecs(es, p) + Recs(es, p + ItemLen(es, p))
  {
  }

  lemma ItemFrame(es: seq<Slot>, es': seq<Slot>, p: nat)
    requires p < |es| && ItemOk(es, p) && SameSlots(es, es', p, p + ItemLen(es, p))
    ensures p < |es'| && ItemOk(es', p) && ItemLen(es', p) == ItemLen(es, p) && ItemRecs(es', p) == ItemRecs(es, p)
  {
    assert es[p] == es'[p];
    if !Skipped(es[p]) && IsLong(es[p]) {
      RecordFrame(es, es', p, Count(es[p]));
    }
  }

  lemma AddHere(es: seq<Slot>, es': seq<Slot>, r: Rec)
    requires Tidy(es, r.off) && IsRec(es', r)
    requires AllFree(es, r.off, r.pieces + 1) && OnlyAt(es, es', r.off, r.pieces + 1)
    ensures GainsRecord(es, es', r.off, r)
  {
    hide LongRec, Checksum;
    SkipFree(es, r.off, r.pieces + 1);
    FreeDifferences(es, es', r.off + r.pieces + 1);
    HeadRecord(es', r);
  }

  ghost predicate GainsRecord(es: seq<Slot>, es': seq<Slot>, p: nat, r: Rec)
    requires Tidy(es, p)
  {
    Tidy(es', p) && Recs(es', p) == Recs(es, p) + {r}
  }

  ghost predicate LosesRecord(es: seq<Slot>, es': seq<Slot>, p: nat, r: Rec)
    requires Tidy(es, p)
  {
    Tidy(es', p) && Recs(es', p) == Recs(es, p) - {r}
  }

  /** An item that is the same on both sides passes a change behind it on. */
  lemma BehindItem(es: seq<Slot>, es': seq<Slot>, p: nat, r: Rec)
    requires p < |es| && Tidy(es, p) && ItemOk(es, p) && SameSlots(es, es', p, p + ItemLen(es, p))
    ensures Tidy(es, p + ItemLen(es, p))
    ensures GainsRecord(es, es', p + ItemLen(es, p), r) ==> GainsRecord(es, es', p, r)
    ensures LosesRecord(es, es', p + ItemLen(es, p), r) && r !in ItemRecs(es, p) ==> LosesRecord(es, es', p, r)
  {
    hide Tidy, Recs, ItemRecs, RecordAt, LongRec, Continues, Text;
    TidyItem(es, p);
    ItemFrame(es, es', p);
    TidyItem(es', p);
  }

  lemma SameBefore(es: seq<Slot>, es': seq<Slot>, off: nat, m: nat, p: nat, q: nat)
    requires OnlyAt(es, es', off, m) && p <= q && (q <= off || (off + m <= p && q <= |es|))
    ensures SameSlots(es, es', p, q)
  {
  }

  lemma FirstFree(es: seq<Slot>, off: nat, m: nat)
    requires AllFree(es, off, m) && m > 0
    ensures off < |es| && IsFree(es[off])
  {
  }

  /** Writing a record over free slots adds it to the records and disturbs no other. */
  lemma {:induction false} AddRecord(es: seq<Slot>, es': seq<Slot>, p: nat, r: Rec)
    requires Tidy(es, p) && p <= r.off && IsRec(es', r)
    requires AllFree(es, r.off, r.pieces + 1) && OnlyAt(es, es', r.off, r.pieces + 1)
    ensures GainsRecord(es, es', p, r)
    decreases |es| - p
  {
    hide *;
    if p == r.off {
      AddHere(es, es', r);
    } else {
      FirstFree(es, r.off, r.pieces + 1);
      TidyItem(es, p);
      ItemBefore(es, p, r.off);
      SameBefore(es, es', r.off, r.pieces + 1, p, p + ItemLen(es, p));
      BehindItem(es, es', p, r);
      AddRecord(es, es', p + ItemLen(es, p), r);
    }
  }

  lemma ItemBefore(es: seq<Slot>, p: nat, q: nat)
    requires p < q < |es| && ItemOk(es, p) && IsFree(es[q])
    ensures p + ItemLen(es, p) <= q
  {
    if !Skipped(es[p]) && IsLong(es[p]) {
      BeforeFree(es, p, Count(es[p]), q);
    }
  }

  lemma BeforeFree(es: seq<Slot>, p: nat, k: nat, q: nat)
    requires RecordAt(es, p, k) && p < q < |es| && IsFree(es[q])
    ensures p + k < q
  {
    if q <= p + k && q < p + k {
      InsideLong(es, p, k, q - p);
    }
  }

  lemma HeadRecord(es: seq<Slot>, r: Rec)
    requires IsRec(es, r) && Tidy(es, r.off + r.pieces + 1)
    ensures Tidy(es, r.off) && Recs(es, r.off) == {r} + Recs(es, r.off + r.pieces + 1)
  {
    ItemIsRec(es, r);
    TidyItem(es, r.off);
  }

  lemma ItemIsRec(es: seq<Slot>, r: Rec)
    requires IsRec(es, r)
    ensures ItemOk(es, r.off) && ItemLen(es, r.off) == r.pieces + 1 && ItemRecs(es, r.off) == {r}
  {
    if r.pieces > 0 {
      InsideLong(es, r.off, r.pieces, 0);
    } else {
      assert !IsLong(es[r.off]);
    }
  }

  lemma OnlyItemRec(es: seq<Slot>, p: nat, r: Rec)
    requires p < |es| && ItemOk(es, p) && r in ItemRecs(es, p)
    ensures ItemRecs(es, p) == {r} && r.off == p && ItemLen(es, p) == r.pieces + 1
  {
  }

  lemma RemoveHere(es: seq<Slot>, es': seq<Slot>, p: nat, r: Rec)
    requires p < |es| && Tidy(es, p) && ItemOk(es, p) && r in ItemRecs(es, p)
    requires OnlyAt(es, es', r.off, r.pieces + 1) && AllFree(es', r.off, r.pieces + 1)
    ensures LosesRecord(es, es', p, r)
  {
    hide LongRec, Count;
    var next := p + r.pieces + 1;
    OnlyItemRec(es, p, r);
    TidyItem(es, p);
    NotAfter(es, next, r);
    SameBehind(es, es', next);
    SkipFree(es', p, r.pieces + 1);
  }

  lemma SameBehind(es: seq<Slot>, es': seq<Slot>, p: nat)
    requires Tidy(es, p) && |es| == |es'| && SameSlots(es, es', p, |es|)
    ensures Tidy(es', p) && Recs(es', p) == Recs(es, p)
  {
    FreeDifferences(es, es', p);
  }

  /** Marking the slots of a record deleted takes it from the records and disturbs no other. */
  lemma {:induction false} RemoveRecord(es: seq<Slot>, es': seq<Slot>, p: nat, r: Rec)
    requires Tidy(es, p) && r in Recs(es, p)
    requires OnlyAt(es, es', r.off, r.pieces + 1) && AllFree(es', r.off, r.pieces + 1)
    ensures LosesRecord(es, es', p, r)
    decreases |es| - p
  {
    hide *;
    ItemInside(es, p, r);
    TidyItem(es, p);
    if r in ItemRecs(es, p) {
      RemoveHere(es, es', p, r);
    } else {
      RecsAfter(es, p + ItemLen(es, p), r);
      SameBefore(es, es', r.off, r.pieces + 1, p, p + ItemLen(es, p));
      BehindItem(es, es', p, r);
      RemoveRecord(es, es', p + ItemLen(es, p), r);
    }
  }

  lemma ItemInside(es: seq<Slot>, p: nat, r: Rec)
    requires Tidy(es, p) && r in Recs(es, p)
    ensures p < |es|
  {
  }

  lemma NotAfter(es: seq<Slot>, p: nat, r: Rec)
    requires Tidy(es, p) && r.off < p
    ensures r !in Recs(es, p)
  {
    if r in Recs(es, p) {
      RecsAfter(es, p, r);
    }
  }

  // ----- short names stay apart --------------------------------------------------------------

  /** No two live short entries bear the same name. */
  ghost predicate ShortDistinct(es: seq<Slot>) {
    forall i, j :: 0 <= i < j < |es| && LiveShort(es[i]) && LiveShort(es[j])
      ==> !StrnEq(ShortName(es[i]), ShortName(es[j]))
  }

  /** `fat_scan` would find no entry by this name. */
  ghost predicate NameFree(es: seq<Slot>, name: seq<byte>)
    requires |name| == MSDOS_NAME
  {
    forall i :: 0 <= i < |es| && LiveShort(es[i]) ==> !StrnEq(ShortName(es[i]), name)
  }

  lemma {:induction false} StrnSymmetric(a: seq<byte>, b: seq<byte>)
    requires |a| == MSDOS_NAME && |b| == MSDOS_NAME && StrnEq(a, b)
    ensures StrnEq(b, a)
  {
    forall i | 0 <= i < MSDOS_NAME && 0 !in b[..i] ensures b[i] == a[i] {
      ZeroBoth(a, b, i);
    }
  }

  lemma {:induction false} ZeroBoth(a: seq<byte>, b: seq<byte>, i: nat)
    requires |a| == MSDOS_NAME && |b| == MSDOS_NAME && StrnEq(a, b) && i <= MSDOS_NAME && 0 !in b[..i]
    ensures 0 !in a[..i]
    decreases i
  {
    if i > 0 {
      assert b[..i - 1] == b[..i][..i - 1];
      ZeroBoth(a, b, i - 1);
      assert a[i - 1] == b[i - 1] == b[..i][i - 1];
      assert a[..i] == a[..i - 1] + [a[i - 1]];
    }
  }

  /** One more live short entry, of a name that was free. */
  lemma DistinctAfterAdd(es: seq<Slot>, es': seq<Slot>, e: nat)
    requires ShortDistinct(es) && e < |es'| && NameFree(es, ShortName(es'[e]))
    requires |es| <= |es'| && forall i :: 0 <= i < |es'| && i != e && LiveShort(es'[i]) ==> i < |es| && es[i] == es'[i]
    ensures ShortDistinct(es')
  {
    forall i, j | 0 <= i < j < |es'| && LiveShort(es'[i]) && LiveShort(es'[j])
      ensures !StrnEq(ShortName(es'[i]), ShortName(es'[j]))
    {
      if i == e && StrnEq(ShortName(es'[i]), ShortName(es'[j])) {
        StrnSymmetric(ShortName(es'[i]), ShortName(es'[j]));
      }
    }
  }

  lemma DistinctAfterLess(es: seq<Slot>, es': seq<Slot>)
    requires ShortDistinct(es)
    requires forall i :: 0 <= i < |es'| && LiveShort(es'[i]) ==> i < |es| && es[i] == es'[i]
    ensures ShortDistinct(es')
  {
  }
}
