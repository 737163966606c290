/** A directory as the driver walks and changes it (dir.c): slots are visited through block
    buffers, records are written over free slots, possibly in new clusters, and removed slot by
    slot. Positions count slots of 32 bytes. */
module FatDirectory {
  import opened Arithmetic
  import opened EntryCodec
  import opened DirSlots
  import opened DirRecords

  const MSDOS_SLOTS := 21
  /** FAT_MAX_DIR_SIZE in slots. */
  const FAT_MAX_DIR_ENTRIES := 65536

  /** What the walking loops carry: the position of the next slot, the buffer (named by the first
      slot it holds, NULL is -1) and the current slot within the buffer (NULL is -1). */
  datatype Cursor = Cursor(pos: nat, bh: int, de: int)

  /** How the pieces of a long name end: all there, directory at its end, a slot that is no
      piece, or a piece of something else. */
  datatype PieceEnd = MorePieces | AllRead | NoMore | NotPiece | Restart

  /** Status of `fat_parse_long`. */
  datatype ParseStatus = ParsedOk | ParseInvalid | ParseNotLong | ParseEof

  datatype AddStatus = AddOk | AddNoSpace | AddIoError

  lemma BlockStart(b: nat, p: nat, x: nat, n: nat)
    requires p > 0 && n % p == 0 && x < p
    ensures b * p < n <==> b * p + x < n
    ensures b * p < n ==> b * p + p <= n
  {
    var k := n / p;
    assert n == k * p;
    if b < k {
      Mono(b + 1, k, p);
    } else {
      Mono(k, b, p);
    }
  }

  /** The answers of `fat_parse_long` are those of this outcome. */
  ghost predicate Answers(out: Parsed, status: ParseStatus, r: Cursor, nr: nat, unicode: seq<u16>) {
    match out
    case Named(u, n, at) => status == ParsedOk && nr == n && r.pos == at + 1 && |u| <= |unicode| && unicode[..|u|] == u
    case Invalid(at) => status == ParseInvalid && r.pos == at + 1
    case NotLong(at) => status == ParseNotLong && r.pos == at + 1
    case Eof => status == ParseEof
  }

  lemma ParseOnce(es: seq<Slot>, p: nat, k: nat, m: nat)
    requires p < |es| && Starts(es[p]) && Count(es[p]) == k && m == Matching(es, p, k, 1)
    ensures p + m == |es| ==> Parse(es, p) == Eof
    ensures p + m < |es| && m < k && !IsLong(es[p + m]) ==> Parse(es, p) == NotLong(p + m)
    ensures (p + m < |es| && IsLong(es[p + m]) && (m < k || es[p + m][0] != DELETED_FLAG))
        ==> Parse(es, p) == Parse(es, p + m)
    ensures (p + m < |es| && m == k && !(IsLong(es[p + m]) && es[p + m][0] != DELETED_FLAG))
        ==> Parse(es, p) == Ended(es, p, k)
  {
  }

  /** What a pass of `fat_parse_long` finds that took `m` of `k` pieces. */
  ghost predicate PassEnd(
    es: seq<Slot>, p: nat, k: nat, m: nat, again: bool, status: ParseStatus, r: Cursor, nr: nat, unicode: seq<u16>)
  {
    match r
    case Cursor(pos, _, _) =>
      && p + m <= |es|
      && (if p + m == |es| then !again && status == ParseEof
          else if m < k && !IsLong(es[p + m]) then !again && status == ParseNotLong && pos == p + m + 1
          else if m < k || (IsLong(es[p + m]) && es[p + m][0] != DELETED_FLAG)
          then again && IsLong(es[p + m]) && pos == p + m + 1
          else !again && Answers(Ended(es, p, m), status, r, nr, unicode))
  }

  /** What one pass of `fat_parse_long` over the slots from `p` finds. */
  ghost predicate PassOutcome(
    es: seq<Slot>, p: nat, m: nat, again: bool, status: ParseStatus, r: Cursor, nr: nat, unicode: seq<u16>)
    requires p < |es|
  {
    match r
    case Cursor(pos, _, _) =>
      if !Starts(es[p]) then !again && status == ParseInvalid && pos == p + 1
      else m == Matching(es, p, Count(es[p]), 1) && PassEnd(es, p, Count(es[p]), m, again, status, r, nr, unicode)
  }

  lemma PassMeans(
    es: seq<Slot>, p: nat, m: nat, again: bool, status: ParseStatus, r: Cursor, nr: nat, unicode: seq<u16>)
    requires p < |es| && PassOutcome(es, p, m, again, status, r, nr, unicode)
    ensures again ==> p + 1 < r.pos <= |es| && Parse(es, r.pos - 1) == Parse(es, p)
    ensures !again ==> Answers(Parse(es, p), status, r, nr, unicode)
  {
    hide Matching;
    if Starts(es[p]) {
      ParseOnce(es, p, Count(es[p]), m);
    }
  }

  /** The buffer holds the text of `m` of `k` pieces from slot `p`, at its place. */
  ghost predicate Buffered(buf: seq<u16>, es: seq<Slot>, p: nat, k: nat, m: nat) {
    m <= k && 13 * k < |buf| && p + m <= |es| && buf[13 * (k - m)..13 * k + 1] == Text(es, p, m)
  }

  lemma BufferedAll(buf: seq<u16>, es: seq<Slot>, p: nat, k: nat)
    requires Buffered(buf, es, p, k, k)
    ensures |Text(es, p, k)| <= |buf| && buf[..|Text(es, p, k)|] == Text(es, p, k)
  {
  }

  ghost predicate Fitting(es: seq<Slot>, p: nat, k: nat, m: nat)
    requires p < |es|
  {
    forall i :: 1 <= i < m ==> Continues(es, p, k, i)
  }

  lemma FittingOn(es: seq<Slot>, p: nat, k: nat, m: nat)
    requires p < |es| && Fitting(es, p, k, m) && (m > 0 ==> Continues(es, p, k, m))
    ensures Fitting(es, p, k, m + 1)
  {
  }

  lemma MatchingIs(es: seq<Slot>, p: nat, k: nat, m: nat)
    requires p < |es| && 1 <= m <= k && p + m <= |es| && Fitting(es, p, k, m)
    requires m < k ==> !Continues(es, p, k, m)
    ensures Matching(es, p, k, 1) == m
  {
    var m' := Matching(es, p, k, 1);
    assert m' < k ==> !Continues(es, p, k, m');
  }

  /** Where and why reading the `k` pieces from `p` ended. */
  ghost predicate PiecesEnd(es: seq<Slot>, p: nat, k: nat, m: nat, end: PieceEnd, r: Cursor) {
    match end
    case MorePieces => false
    case NoMore => p + m == |es|
    case AllRead => m == k && p + m < |es| && r.pos == p + m + 1
    case NotPiece => m < k && p + m < |es| && r.pos == p + m + 1 && !IsLong(es[p + m])
    case Restart => m < k && p + m < |es| && r.pos == p + m + 1 && IsLong(es[p + m])
  }

  /** What stands in the buffer behind a piece once it is taken. */
  lemma TailTaken(before: seq<u16>, after: seq<u16>, lo: nat, hi: nat, leads: bool, rest: seq<u16>)
    requires lo < hi <= |before| == |after| && |rest| == hi - lo
    requires (leads && rest == [0]) || before[lo..hi] == rest
    requires after[lo] == (if leads then 0 else before[lo]) && after[lo + 1..] == before[lo + 1..]
    ensures after[lo..hi] == if leads then [0] + rest[1..] else rest
  {
    forall i | lo + 1 <= i < hi ensures after[i] == before[i] {
      assert after[lo + 1..][i - lo - 1] == before[lo + 1..][i - lo - 1];
    }
    assert after[lo + 1..hi] == before[lo + 1..hi];
    assert after[lo..hi] == [after[lo]] + after[lo + 1..hi];
  }

  lemma PieceJoined(after: seq<u16>, lo: nat, hi: nat, piece: seq<u16>, tail: seq<u16>)
    requires 13 <= lo <= hi <= |after| && after[lo - 13..lo] == piece && after[lo..hi] == tail
    ensures after[lo - 13..hi] == piece + tail
  {
  }

  /** Taking one more piece in front of those taken is the text of one more piece. */
  lemma PieceTaken(before: seq<u16>, after: seq<u16>, es: seq<Slot>, p: nat, k: nat, m: nat)
    requires m < k && p + m < |es| && 13 * k < |before| == |after|
    requires if m == 0 then Leads(es[p]) else Buffered(before, es, p, k, m)
    requires after[13 * (k - m) - 13..13 * (k - m)] == Units(es[p + m])
    requires after[13 * (k - m)] == if Leads(es[p + m]) then 0 else before[13 * (k - m)]
    requires after[13 * (k - m) + 1..] == before[13 * (k - m) + 1..]
    ensures Buffered(after, es, p, k, m + 1)
  {
    var lo, hi, rest := 13 * (k - m), 13 * k + 1, Text(es, p, m);
    TailTaken(before, after, lo, hi, Leads(es[p + m]), rest);
    PieceJoined(after, lo, hi, Units(es[p + m]), if Leads(es[p + m]) then [0] + rest[1..] else rest);
  }

  lemma SearchStep(es: seq<Slot>, p: nat, rd: Reader, name: seq<byte>)
    requires p < |es| && IsLong(es[p]) && es[p][0] != DELETED_FLAG && SoundParse(es, p, Parse(es, p))
    ensures Search(es, p, rd, name) == SearchParsed(es, p, Parse(es, p), rd, name)
  {
  }

  predicate EndsZero(u: seq<u16>) { |u| > 0 && u[|u| - 1] == 0 }

  lemma JoinEndsZero(a: seq<u16>, rest: seq<u16>, leads: bool)
    requires EndsZero(rest)
    ensures EndsZero(a + (if leads then [0] + rest[1..] else rest))
  {
  }

  lemma {:induction false} TextZero(es: seq<Slot>, p: nat, j: nat)
    requires p + j <= |es|
    ensures EndsZero(Text(es, p, j))
    decreases j
  {
    if j > 0 {
      TextZero(es, p, j - 1);
      JoinEndsZero(Units(es[p + j - 1]), Text(es, p, j - 1), Leads(es[p + j - 1]));
    }
  }

  lemma ZeroInText(es: seq<Slot>, p: nat, j: nat, u: seq<u16>)
    requires p + j <= |es| && u == Text(es, p, j)
    ensures 0 in u
  {
    TextZero(es, p, j);
  }

  lemma TextHasZero(es: seq<Slot>, p: nat, r: Parsed)
    requires p < |es| && SoundParse(es, p, r) && r.Named?
    ensures r.slots > 0 ==> 0 in r.units
  {
    if r.slots > 0 {
      ZeroInText(es, r.at - r.slots, r.slots, r.units);
    }
  }

  /** The name ends inside what was parsed, whatever the rest of the buffer holds. */
  lemma {:induction false} ZeroInside(u: seq<u16>, buf: seq<u16>)
    requires |u| <= |buf| && buf[..|u|] == u && 0 in u
    ensures UpToZero(buf) == UpToZero(u)
    decreases |u|
  {
    assert buf[0] == buf[..|u|][0] == u[0];
    if u[0] != 0 {
      assert buf[1..][..|u| - 1] == buf[..|u|][1..] == u[1..];
      assert u == [u[0]] + u[1..];
      ZeroInside(u[1..], buf[1..]);
    }
  }

  // ----- room for new entries -----------------------------------------------------------------

  function Zeros(n: nat): (r: seq<Slot>)
    ensures |r| == n && forall i :: 0 <= i < n ==> IsFree(r[i])
  {
    seq(n, _ => ZeroSlot())
  }

  /** `es` with the slots from `off` on overwritten. */
  function Written(es: seq<Slot>, off: nat, ss: seq<Slot>): (r: seq<Slot>)
    requires off + |ss| <= |es|
    ensures |r| == |es|
  {
    es[..off] + ss + es[off + |ss|..]
  }

  lemma WrittenMore(es: seq<Slot>, off: nat, a: seq<Slot>, b: seq<Slot>)
    requires off + |a| + |b| <= |es|
    ensures Written(Written(es, off, a), off + |a|, b) == Written(es, off, a + b)
  {
  }

  /** Nowhere in the first `q` slots are there `n` free ones in a row. */
  ghost predicate NoRun(es: seq<Slot>, n: nat, q: nat) {
    forall p: nat :: p + n <= q ==> !AllFree(es, p, n)
  }

  lemma SameBlock(a: nat, b: nat, p: nat, x: nat)
    requires p > 0 && a % p == 0 && b % p == 0 && a <= x < a + p && b <= x < b + p
    ensures a == b
  {
    DivSplit(a, p);
    DivSplit(b, p);
    DivOf(a / p, x - a, p);
    DivOf(b / p, x - b, p);
  }

  lemma NextBlock(a: nat, p: nat)
    requires p > 0 && a % p == 0
    ensures (a + p) % p == 0
  {
    DivSplit(a, p);
    assert a + p == (a / p + 1) * p;
    DivOf(a / p + 1, 0, p);
  }

  /** The buffers that hold slots `lo .. hi`, in order; each starts where the one before ends. */
  ghost predicate Covers(bhs: seq<nat>, pb: nat, lo: nat, hi: nat) {
    && 0 < |bhs| && lo < hi && pb > 0
    && (forall i :: 0 <= i < |bhs| - 1 ==> bhs[i] + pb == bhs[i + 1])
    && bhs[0] % pb == 0 && bhs[0] <= lo < bhs[0] + pb
    && bhs[|bhs| - 1] <= hi - 1 < bhs[|bhs| - 1] + pb
  }

  lemma {:induction false} CoversAligned(bhs: seq<nat>, pb: nat, lo: nat, hi: nat, i: nat)
    requires Covers(bhs, pb, lo, hi) && i < |bhs|
    ensures bhs[i] % pb == 0
    decreases i
  {
    if i > 0 {
      CoversAligned(bhs, pb, lo, hi, i - 1);
      NextBlock(bhs[i - 1], pb);
    }
  }

  lemma {:induction false} CoversOrder(bhs: seq<nat>, pb: nat, lo: nat, hi: nat, i: nat)
    requires Covers(bhs, pb, lo, hi) && i < |bhs|
    ensures bhs[i] <= bhs[|bhs| - 1] && (i < |bhs| - 1 ==> bhs[i] + pb <= bhs[|bhs| - 1])
    decreases |bhs| - i
  {
    if i < |bhs| - 1 {
      CoversOrder(bhs, pb, lo, hi, i + 1);
    }
  }

  /** A run of at most 21 slots lies in at most three buffers (`bhs[3]`). */
  lemma AtMostThree(bhs: seq<nat>, pb: nat, lo: nat, hi: nat)
    requires Covers(bhs, pb, lo, hi) && pb >= 16 && hi - lo <= MSDOS_SLOTS
    ensures |bhs| <= 3
  {
    if |bhs| > 3 {
      assert bhs[0] + pb == bhs[1] && bhs[1] + pb == bhs[2] && bhs[2] + pb == bhs[3];
      CoversOrder(bhs, pb, lo, hi, 3);
    }
  }

  /** One more free slot behind the run. */
  lemma CoversNext(bhs: seq<nat>, pb: nat, lo: nat, hi: nat, bh: nat)
    requires pb > 0 && bh % pb == 0 && bh <= hi < bh + pb
    requires if lo == hi then bhs == [] else Covers(bhs, pb, lo, hi)
    ensures Covers(if bhs != [] && bhs[|bhs| - 1] == bh then bhs else bhs + [bh], pb, lo, hi + 1)
  {
    if bhs != [] && bhs[|bhs| - 1] != bh {
      CoversAligned(bhs, pb, lo, hi, |bhs| - 1);
      var last := bhs[|bhs| - 1];
      if hi < last + pb {
        SameBlock(last, bh, pb, hi);
      } else {
        NextBlock(last, pb);
        SameBlock(last + pb, bh, pb, hi);
      }
    }
  }

  lemma NoRunNext(es: seq<Slot>, n: nat, q: nat, free: nat)
    requires 1 <= n && q < |es| && NoRun(es, n, q) && free <= q
    requires free < n && (free == q || !IsFree(es[q - free - 1]))
    ensures !IsFree(es[q]) || free + 1 < n ==> NoRun(es, n, q + 1)
  {
    if !IsFree(es[q]) || free + 1 < n {
      forall p: nat | p + n <= q + 1 ensures !AllFree(es, p, n) {
        if p + n == q + 1 {
          assert !IsFree(es[q]) || !IsFree(es[q - free - 1]);
        }
      }
    }
  }

  lemma AllFreeNext(es: seq<Slot>, off: nat, m: nat)
    requires AllFree(es, off, m) && off + m < |es| && IsFree(es[off + m])
    ensures AllFree(es, off, m + 1)
  {
  }

  /** The buffers collected for a run of free slots, and the last one taken. */
  ghost predicate Collected(bhs: seq<nat>, prev: int, pb: nat, lo: nat, hi: nat) {
    if lo == hi then bhs == [] && prev == -1
    else Covers(bhs, pb, lo, hi) && prev == bhs[|bhs| - 1] && |bhs| <= 3
  }

  /** The scan for room stands before slot `q`, with `free` free slots behind it. */
  ghost predicate Scanning(es: seq<Slot>, n: nat, q: nat, free: nat) {
    && free < n && free <= q <= |es| && AllFree(es, q - free, free) && NoRun(es, n, q)
    && (free == q || !IsFree(es[q - free - 1]))
  }

  lemma ScanOn(es: seq<Slot>, n: nat, q: nat, free: nat)
    requires Scanning(es, n, q, free) && q < |es|
    ensures !IsFree(es[q]) ==> Scanning(es, n, q + 1, 0)
    ensures IsFree(es[q]) ==> AllFree(es, q - free, free + 1)
    ensures IsFree(es[q]) && free + 1 < n ==> Scanning(es, n, q + 1, free + 1)
  {
    NoRunNext(es, n, q, free);
    if IsFree(es[q]) {
      AllFreeNext(es, q - free, free);
    }
  }

  lemma WrittenPrefix(es: seq<Slot>, off: nat, ss: seq<Slot>, w: nat, copy: nat)
    requires off + |ss| <= |es| && w + copy <= |ss|
    ensures Written(Written(es, off, ss[..w]), off + w, ss[w..w + copy]) == Written(es, off, ss[..w + copy])
  {
    WrittenMore(es, off, ss[..w], ss[w..w + copy]);
    assert ss[..w + copy] == ss[..w] + ss[w..w + copy];
  }

  /** Filling a run of `n` slots stands at `offset` in buffer `i`, with `w` slots written. */
  ghost predicate FillAt(bhs: seq<nat>, pb: nat, off: nat, n: nat, i: nat, offset: nat, w: nat) {
    if i < |bhs| then bhs[i] + offset == off + w && offset < pb && w < n && (i > 0 ==> offset == 0)
    else w == n
  }

  lemma RunOffset(bhs: seq<nat>, pb: nat, lo: nat, hi: nat)
    requires Covers(bhs, pb, lo, hi)
    ensures lo % pb == lo - bhs[0]
  {
    DivSplit(bhs[0], pb);
    DivOf(bhs[0] / pb, lo - bhs[0], pb);
  }

  /** The slot as the second stage of a removal leaves it, and as the first stage does: with the
      name moved up one byte. */
  function Deleted(s: Slot): Slot { s[0 := DELETED_FLAG] }

  function Shifted(s: Slot): Slot { [DELETED_FLAG] + s[..MSDOS_NAME - 1] + s[MSDOS_NAME..] }

  /** Slots `lo .. hi` are marked deleted; nothing else differs. */
  ghost predicate MarkedDeleted(es: seq<Slot>, es': seq<Slot>, lo: nat, hi: nat) {
    && lo <= hi <= |es| == |es'|
    && forall i :: 0 <= i < |es| ==> es'[i] == if lo <= i < hi then Deleted(es[i]) else es[i]
  }

  /** Slots `off .. hi` are removed: those from `cut` on with their names moved up. */
  ghost predicate Removed(es: seq<Slot>, es': seq<Slot>, off: nat, cut: nat, hi: nat) {
    && off <= cut <= hi <= |es| == |es'|
    && forall i ::
         0 <= i < |es| ==>
           es'[i] ==
             if cut <= i < hi then Shifted(es[i])
             else if off <= i < cut then Deleted(es[i])
             else es[i]
  }

  /** What adding entries did: the slots stand in a run that was free, in the directory or in
      `grown` cleared slots behind it, and in the first such run there is. */
  ghost predicate Added(es: seq<Slot>, es': seq<Slot>, off: nat, ss: seq<Slot>, grown: nat) {
    && off + |ss| <= |es| + grown && off <= |es|
    && AllFree(es + Zeros(grown), off, |ss|)
    && es' == Written(es + Zeros(grown), off, ss)
    && (forall p: nat :: p < off && p + |ss| <= |es| ==> !AllFree(es, p, |ss|))
    && (grown > 0 ==> off + |ss| > |es| && NoRun(es, |ss|, |es|))
  }

  lemma FillIn(es: seq<Slot>, off: nat, ss: seq<Slot>, free: nat, grown: nat)
    requires free <= |ss| && off + free == |es| && off + |ss| <= |es| + grown
    ensures Written(es, off, ss[..free]) + (ss[free..] + Zeros(grown - (|ss| - free)))
         == Written(es + Zeros(grown), off, ss)
  {
    var l := Written(es, off, ss[..free]) + (ss[free..] + Zeros(grown - (|ss| - free)));
    var r := Written(es + Zeros(grown), off, ss);
    assert |l| == |r|;
    forall i | 0 <= i < |l| ensures l[i] == r[i] {
    }
  }

  // ----- new clusters ------------------------------------------------------------------------

  /** Where filling a new cluster stands: the buffer's start, how much of it is filled, how many
      buffers were filled before it, and what is left to store. */
  datatype Fill = Fill(area: seq<Slot>, cur: nat, copy: nat, n: nat, left: seq<Slot>)

  /** Slots `0 .. |rest|` of the new area hold `rest`. */
  ghost predicate Holds(area: seq<Slot>, rest: seq<Slot>) { |rest| <= |area| && area[..|rest|] == rest }

  lemma WrittenAfter(area: seq<Slot>, done: seq<Slot>, part: seq<Slot>)
    requires Holds(area, done) && |done| + |part| <= |area|
    ensures Holds(Written(area, |done|, part), done + part)
  {
  }

  lemma WrittenNext(area: seq<Slot>, done: seq<Slot>, left: seq<Slot>, w: nat, copy: nat)
    requires w + copy <= |left| && Holds(area, done + left[..w]) && |done| + w + copy <= |area|
    ensures Holds(Written(area, |done| + w, left[w..][..copy]), done + left[..w + copy])
  {
    WrittenAfter(area, done + left[..w], left[w..][..copy]);
    assert (done + left[..w]) + left[w..][..copy] == done + left[..w + copy];
  }

  /** What filling one cluster comes to. */
  ghost predicate ClusterFilled(spc: nat, pb: nat, f: Fill, done: seq<Slot>, r: Fill) {
    && |r.area| == |f.area| && |r.left| <= |f.left|
    && Holds(r.area, done + f.left[..|f.left| - |r.left|]) && r.left == f.left[|f.left| - |r.left|..]
    && (if r.left == [] then
          && 1 <= r.copy <= pb && r.cur + r.copy == |done| + |f.left|
          && f.n <= r.n < f.n + spc && r.cur == f.cur + (r.n - f.n) * pb && r.cur + pb <= f.cur + spc * pb
        else
          |f.left| - |r.left| == spc * pb && r.cur == f.cur + spc * pb && r.n == f.n + spc)
  }

  /** Slots `lo .. hi` are as in a cleared cluster. */
  ghost predicate Cleared(area: seq<Slot>, lo: nat, hi: nat) {
    lo <= hi <= |area| && forall i :: lo <= i < hi ==> area[i] == ZeroSlot()
  }

  lemma ClearMore(r: seq<Slot>, kept: seq<Slot>, lo: nat, hi: nat, pb: nat)
    requires Holds(r, kept) && |kept| <= lo && Cleared(r, lo, hi) && hi + pb <= |r|
    ensures Holds(Written(r, hi, Zeros(pb)), kept) && Cleared(Written(r, hi, Zeros(pb)), lo, hi + pb)
  {
  }

  lemma ClearBehind(area: seq<Slot>, rest: seq<Slot>, hi: nat)
    requires Holds(area, rest) && |rest| <= hi <= |area|
    ensures Holds(Written(area, |rest|, Zeros(hi - |rest|)), rest)
    ensures Cleared(Written(area, |rest|, Zeros(hi - |rest|)), |rest|, hi)
  {
  }

  lemma AllCleared(filled: seq<Slot>, area: seq<Slot>, rest: seq<Slot>, hi: nat)
    requires Holds(filled, rest) && Cleared(filled, |rest|, hi) && |area| == |filled|
    requires area[..hi] == filled[..hi] && Cleared(area, hi, |area|)
    ensures area == rest + Zeros(|area| - |rest|)
  {
    forall i | 0 <= i < |area| ensures area[i] == (rest + Zeros(|area| - |rest|))[i] {
      if i < hi {
        assert area[i] == area[..hi][i] == filled[i];
        if i < |rest| {
          assert filled[i] == filled[..|rest|][i];
        }
      }
    }
  }

  /** Two clusters are needed only when a cluster is a single block. */
  lemma OneBlockClusters(spc: nat, pb: nat, nr: nat, n: nat)
    requires 16 <= pb && 1 <= spc && 1 <= n <= MSDOS_SLOTS && 1 <= nr <= 2 && (nr - 1) * (spc * pb) < n
    ensures nr == 2 ==> spc == 1
  {
    if spc >= 2 {
      Mono(2, spc, pb);
    }
  }

  /** Filling stands before cluster `i` of `nr`, or all is stored. */
  ghost predicate Filling(spc: nat, pb: nat, pc: nat, f: Fill, rest: seq<Slot>, i: nat, nr: nat, start: nat) {
    if i < nr then
      && f.cur == i * pc <= |rest| && f.n == i * spc && f.left != []
      && Holds(f.area, rest[..f.cur]) && f.left == rest[f.cur..]
    else
      && f.left == [] && Holds(f.area, rest) && start == (nr - 1) * pc
      && 1 <= f.copy <= pb && f.cur + f.copy == |rest| && f.cur + pb <= start + pc
      && (nr == 1 ==> f.cur == f.n * pb && f.n < spc) && (nr == 2 ==> f.cur == start && f.n == 1)
  }

  lemma FilledUp(spc: nat, pb: nat, pc: nat, f: Fill, r: Fill, rest: seq<Slot>, i: nat, nr: nat, start: nat)
    requires 1 <= spc && 16 <= pb && pc == spc * pb && i < nr <= 2 && Filling(spc, pb, pc, f, rest, i, nr, start)
    requires ClusterFilled(spc, pb, f, rest[..f.cur], r)
    requires (nr - 1) * pc < |rest| <= nr * pc && (nr == 2 ==> spc == 1)
    ensures Filling(spc, pb, pc, r, rest, i + 1, nr, f.cur)
  {
    hide Holds;
    var done, w := rest[..f.cur], |f.left| - |r.left|;
    assert done + f.left[..w] == rest[..|done| + w];
    assert r.left == rest[|done| + w..];
    assert rest[..|rest|] == rest;
  }

  /** Where clearing the rest of the last cluster starts. */
  lemma ClearFrom(spc: nat, pb: nat, pc: nat, f: Fill, rest: seq<Slot>, nr: nat, start: nat)
    requires 1 <= spc && pc == spc * pb && 1 <= nr <= 2 && Filling(spc, pb, pc, f, rest, nr, nr, start)
    requires nr == 2 ==> spc == 1
    ensures start + pc == nr * pc
    ensures f.n + 1 < spc ==> start + (f.n + 1) * pb == f.cur + pb
    ensures f.n + 1 >= spc ==> f.cur + pb == nr * pc
  {
    assert (f.n + 1) * pb == f.n * pb + pb;
    if nr == 1 && f.n + 1 >= spc {
      assert f.n + 1 == spc;
    }
  }

  lemma WholeBlocks(n: nat, more: nat, spc: nat, pb: nat)
    requires pb > 0 && spc > 0 && n % pb == 0 && spc * pb > 0 && more % (spc * pb) == 0
    ensures (n + more) % pb == 0
  {
    DivSplit(more, spc * pb);
    DivSplit(n, pb);
    var k, c := n / pb, more / (spc * pb);
    assert n + more == k * pb + c * (spc * pb);
    assert c * (spc * pb) == (c * spc) * pb;
    assert k * pb + (c * spc) * pb == (k + c * spc) * pb;
    DivOf(k + c * spc, 0, pb);
  }

  lemma EvenSize(n: nat, pb: nat)
    requires pb > 0 && pb % 2 == 0 && n % pb == 0
    ensures n % 2 == 0
  {
    DivSplit(n, pb);
    assert n == 2 * (n / pb * (pb / 2)) by {
      assert pb == 2 * (pb / 2);
    }
  }

  lemma Clusters(n: nat, pc: nat, nr: nat)
    requires 1 <= n <= MSDOS_SLOTS && 16 <= pc && nr == (n + (pc - 1)) / pc
    ensures 1 <= nr <= 2 && (nr - 1) * pc < n <= nr * pc && (nr - 1) * pc + pc == nr * pc
  {
    DivSplit(n + (pc - 1), pc);
    assert nr * pc <= n + pc - 1 < nr * pc + pc;
    assert (nr - 1) * pc == nr * pc - pc;
    if nr > 2 {
      Mono(3, nr, pc);
    }
  }

  /** How many of the last slots are free. */
  function TrailingFree(es: seq<Slot>): (n: nat)
    ensures n <= |es| && AllFree(es, |es| - n, n) && (n < |es| ==> !IsFree(es[|es| - n - 1]))
    decreases |es|
  {
    if |es| == 0 || !IsFree(es[|es| - 1]) then 0 else
      var n := TrailingFree(es[..|es| - 1]);
      assert forall i :: |es| - 1 - n <= i < |es| - 1 ==> es[..|es| - 1][i] == es[i];
      n + 1
  }

  lemma TrailingIs(es: seq<Slot>, n: nat)
    requires n <= |es| && AllFree(es, |es| - n, n) && (n < |es| ==> !IsFree(es[|es| - n - 1]))
    ensures n == TrailingFree(es)
  {
    assert AllFree(es, |es| - TrailingFree(es), TrailingFree(es));
  }

  /** How many clusters of `pc` slots must be added for `n` slots: none, unless the directory has
      no run of `n` free slots and is not full. */
  ghost function Needed(es: seq<Slot>, n: nat, pc: nat): nat
    requires pc > 0
  {
    if |es| < FAT_MAX_DIR_ENTRIES && NoRun(es, n, |es|) && n > TrailingFree(es)
    then CeilDiv(n - TrailingFree(es), pc)
    else 0
  }

  lemma RoomNeeds(es: seq<Slot>, n: nat, room: Room, off: nat, free: nat, pc: nat)
    requires 1 <= n && pc > 0 && RoomIs(es, n, room, off, free)
    ensures Needed(es, n, pc) == if room == RoomAtEnd then CeilDiv(n - free, pc) else 0
    ensures room == RoomAtEnd ==> Needed(es, n, pc) > 0
  {
    match room
    case RoomFound => assert AllFree(es, off, n);
    case RoomAtEnd =>
      TrailingIs(es, free);
      if CeilDiv(n - free, pc) == 0 {
        DivSplit(n - free + (pc - 1), pc);
      }
    case RoomFull =>
  }

  datatype Room = RoomFound | RoomAtEnd | RoomFull

  /** Where there is room for `n` slots: the first run, or the free slots at the end. */
  ghost predicate RoomIs(es: seq<Slot>, n: nat, room: Room, off: nat, free: nat)
    requires 1 <= n
  {
    match room
    case RoomFound => free == n && AllFree(es, off, n) && NoRun(es, n, off + n - 1) && off + n < FAT_MAX_DIR_ENTRIES
    case RoomAtEnd =>
      && free < n && off + free == |es| < FAT_MAX_DIR_ENTRIES && AllFree(es, off, free) && NoRun(es, n, |es|)
      && (off == 0 || !IsFree(es[off - 1]))
    case RoomFull => |es| >= FAT_MAX_DIR_ENTRIES && NoRun(es, n, FAT_MAX_DIR_ENTRIES - 1)
  }

  lemma RoomMeans(es: seq<Slot>, n: nat, room: Room, off: nat, free: nat)
    requires 1 <= n && RoomIs(es, n, room, off, free)
    ensures room != RoomFound ==> NoRun(es, n, Min(|es|, FAT_MAX_DIR_ENTRIES - 1))
    ensures room != RoomFull ==> AllFree(es, off, free) && off + free <= |es|
    ensures room == RoomAtEnd ==> free < n && off + free == |es|
    ensures room == RoomFound ==> free == n && !NoRun(es, n, Min(|es|, FAT_MAX_DIR_ENTRIES - 1))
    ensures room == RoomFull <==> room != RoomFound && |es| >= FAT_MAX_DIR_ENTRIES
  {
  }

  lemma FillStart(es: seq<Slot>, off: nat, ss: seq<Slot>, free: nat)
    requires off + free <= |es| && free <= |ss|
    ensures free == 0 ==> es == Written(es, off, ss[..free])
  {
  }

  lemma AddedIs(es: seq<Slot>, es': seq<Slot>, off: nat, ss: seq<Slot>, free: nat, room: Room, grown: nat)
    requires 1 <= |ss| && RoomIs(es, |ss|, room, off, free) && room != RoomFull
    requires if free == |ss| then grown == 0 else |ss| - free <= grown
    requires off + |ss| <= |es| + grown ==> es' == Written(es + Zeros(grown), off, ss)
    ensures Added(es, es', off, ss, grown)
  {
    assert AllFree(es + Zeros(grown), off, |ss|);
  }

  class Directory {
    /** The slots of the directory, in order. */
    var entries: seq<Slot>
    /** `i_start` of the directory. */
    var start: nat
    const perBlock: nat
    const secPerClus: nat
    const isRoot: bool
    const fat32: bool

    /** The directory of `fat_alloc_new_dir`: the entries for `.` and `..` in a cleared cluster. */
    constructor NewDir(perBlock: nat, secPerClus: nat, fat32: bool, cluster: nat, dot: Slot, dotdot: Slot)
      requires 16 <= perBlock && 1 <= secPerClus
      ensures Valid() && this.perBlock == perBlock && this.secPerClus == secPerClus && start == cluster
      ensures !isRoot && this.fat32 == fat32
      ensures |entries| == secPerClus * perBlock && entries == [dot, dotdot] + Zeros(|entries| - 2)
    {
      this.perBlock, this.secPerClus, this.isRoot, this.fat32 := perBlock, secPerClus, false, fat32;
      start := cluster;
      entries := [];
      new;
      var pc := secPerClus * perBlock;
      Mono(1, secPerClus, perBlock);
      DivOf(secPerClus, 0, perBlock);
      var area: seq<Slot> :| |area| == pc by { assert |Zeros(pc)| == pc; }
      area := Written(area, 0, [dot, dotdot] + Zeros(perBlock - 2));
      ghost var first := area;
      entries := area;
      area := ZeroedCluster(area, 0, 1);
      assert 1 * perBlock == perBlock;
      AllCleared(first, area, [dot, dotdot], perBlock);
      entries := area;
    }

    ghost predicate Valid()
      reads this
    {
      16 <= perBlock && 1 <= secPerClus && |entries| % perBlock == 0
    }

    /** The slot the cursor is at. */
    ghost function Index(c: Cursor): int { c.pos - 1 }

    /** Buffer and slot pointer agree with the position. */
    ghost predicate Points(c: Cursor)
      reads this
    {
      && 0 <= c.bh && c.bh + perBlock <= |entries| && InBlocks(c.bh)
      && 0 <= c.de < perBlock && c.pos == c.bh + c.de + 1
    }

    ghost predicate InBlocks(bh: int) { perBlock > 0 && bh % perBlock == 0 }

    ghost predicate Ready(c: Cursor)
      reads this
    {
      c.bh == -1 || Points(c)
    }

    /** `fat_get_entry` with `fat__get_entry`: the next slot, from the buffer at hand or from a new
        one. Both ways visit every slot of the directory in order, and then fail. */
    method GetEntry(c: Cursor) returns (ok: bool, r: Cursor)
      requires Valid() && Ready(c)
      ensures ok <==> c.pos < |entries|
      ensures if ok then Points(r) && r.pos == c.pos + 1 else r == Cursor(c.pos, -1, c.de)
    {
      if c.bh != -1 && c.de != -1 && c.de < perBlock - 1 {
        return true, Cursor(c.pos + 1, c.bh, c.de + 1);
      }
      var iblock, offset := c.pos / perBlock, c.pos % perBlock;
      DivSplit(c.pos, perBlock);
      BlockStart(iblock, perBlock, offset, |entries|);
      if iblock * perBlock >= |entries| {
        return false, Cursor(c.pos, -1, c.de);
      }
      DivOf(iblock, 0, perBlock);
      return true, Cursor(c.pos + 1, iblock * perBlock, offset);
    }

    /** The slot under the cursor. */
    function De(c: Cursor): Slot
      requires Points(c)
      reads this
    {
      entries[c.bh + c.de]
    }

    // ----- reading a long name ----------------------------------------------------------

    /** One slot's 13 units into the buffer, and the closing zero if it is marked. */
    method TakePiece(s: Slot, slot: nat, unicode: array<u16>)
      requires 13 * slot + 13 < unicode.Length
      modifies unicode
      ensures unicode[..13 * slot] == old(unicode[..13 * slot])
      ensures unicode[13 * slot..13 * slot + 13] == Units(s)
      ensures unicode[13 * slot + 13] == if Leads(s) then 0 else old(unicode[13 * slot + 13])
      ensures unicode[13 * slot + 14..] == old(unicode[13 * slot + 14..])
    {
      var offset, i := 13 * slot, 0;
      while i < 13
        invariant 0 <= i <= 13
        invariant forall x :: 0 <= x < unicode.Length && !(offset <= x < offset + i) ==> unicode[x] == old(unicode[x])
        invariant forall x :: 0 <= x < i ==> unicode[offset + x] == Unit(s, x)
      {
        unicode[offset + i] := Unit(s, i);
        i := i + 1;
      }
      assert unicode[offset..offset + 13] == Units(s);
      if Leads(s) {
        unicode[offset + 13] := 0;
      }
    }
  
    /** The next piece goes in front of those taken. */
    method PutPiece(s: Slot, slot: nat, unicode: array<u16>, ghost p: nat, ghost k: nat, ghost m: nat)
      requires slot + m + 1 == k <= 20 && p + m < |entries| && s == entries[p + m] && 13 * k < unicode.Length
      requires m == 0 ==> Leads(entries[p])
      requires m > 0 ==> Buffered(unicode[..], entries, p, k, m)
      modifies unicode
      ensures Buffered(unicode[..], entries, p, k, m + 1)
    {
      ghost var before := unicode[..];
      TakePiece(s, slot, unicode);
      PieceTaken(before, unicode[..], entries, p, k, m);
    }

    /** Reading the `k` pieces from `p` stands after `m` of them: at the next piece, or ended. */
    ghost predicate Reading(p: nat, k: nat, m: nat, end: PieceEnd, r: Cursor)
      reads this
    {
      match end
      case MorePieces =>
        && p < |entries| && m < k && Points(r)
        && r.pos == p + m + 1
        && (m > 0 ==> Continues(entries, p, k, m))
      case NoMore => p < |entries| && PiecesEnd(entries, p, k, m, end, r) && r.bh == -1
      case AllRead => p < |entries| && PiecesEnd(entries, p, k, m, end, r) && Points(r)
      case _ => p < |entries| && PiecesEnd(entries, p, k, m, end, r) && Points(r) && !Continues(entries, p, k, m)
    }

    /** Step to the slot where the next piece should be; the pieces end there or go on. */
    method NextPiece(c: Cursor, slot: nat, sum: byte, ghost p: nat, ghost k: nat, ghost m: nat)
        returns (end: PieceEnd, r: Cursor)
      requires Valid() && Points(c) && p < |entries| && c.pos == p + m && 1 <= m && slot + m == k
      requires sum == AliasSum(entries[p])
      ensures Reading(p, k, m, end, r)
    {
      var ok;
      ok, r := GetEntry(c);
      if !ok {
        return NoMore, r;
      }
      if slot == 0 {
        return AllRead, r;
      }
      if !IsLong(De(r)) {
        return NotPiece, r;
      }
      if Count(De(r)) != slot || AliasSum(De(r)) != sum {
        return Restart, r;
      }
      return MorePieces, r;
    }

    /** The pieces from the cursor on, as long as they fit together. */
    method ReadPieces(c: Cursor, k: nat, unicode: array<u16>, ghost p: nat)
      returns (end: PieceEnd, r: Cursor, ghost m: nat)
      requires Valid() && Points(c) && p == c.pos - 1 && 1 <= k <= 20 && 13 * k < unicode.Length
      requires Leads(entries[p]) && Count(entries[p]) == k
      modifies unicode
      ensures 1 <= m <= k && p + m <= |entries| && m == Matching(entries, p, k, 1)
      ensures Buffered(unicode[..], entries, p, k, m)
      ensures end != MorePieces && Reading(p, k, m, end, r)
    {
      hide Buffered, Matching, Continues, Count;
      var slot, sum := k, AliasSum(De(c));
      r, m, end := c, 0, MorePieces;
      while end == MorePieces
        invariant 0 <= slot && m + slot == k && Fitting(entries, p, k, m)
        invariant Reading(p, k, m, end, r)
        invariant m > 0 ==> Buffered(unicode[..], entries, p, k, m)
        invariant end != MorePieces ==> m > 0
        decreases slot, end == MorePieces
        modifies unicode
      {
        slot := slot - 1;
        PutPiece(De(r), slot, unicode, p, k, m);
        FittingOn(entries, p, k, m);
        m := m + 1;
        end, r := NextPiece(r, slot, sum, p, k, m);
      }
      ReadMatching(p, k, m, end, r);
    }

    lemma ReadMatching(p: nat, k: nat, m: nat, end: PieceEnd, r: Cursor)
      requires Valid() && 1 <= m <= k && p + m <= |entries| && end != MorePieces && Reading(p, k, m, end, r)
      requires Fitting(entries, p, k, m)
      ensures m == Matching(entries, p, k, 1)
    {
      MatchingIs(entries, p, k, m);
    }

    /** All pieces are read: what stands behind them decides. */
    method FinishParse(c: Cursor, slots: nat, sum: byte, unicode: array<u16>, ghost p: nat)
        returns (status: ParseStatus, nr: nat)
      requires Valid() && Points(c) && c.pos == p + slots + 1 && sum == AliasSum(entries[p])
      requires Buffered(unicode[..], entries, p, slots, slots)
      requires !(IsLong(entries[p + slots]) && entries[p + slots][0] != DELETED_FLAG)
      ensures Answers(Ended(entries, p, slots), status, c, nr, unicode[..])
      ensures status != ParseEof
    {
      nr := slots;
      if De(c)[0] == DELETED_FLAG {
        return ParseInvalid, nr;
      }
      if IsFree(De(c)) || IsVolume(De(c)) {
        return ParseInvalid, nr;
      }
      if Checksum(ShortName(De(c))) != sum {
        nr := 0;
      }
      BufferedAll(unicode[..], entries, p, slots);
      return ParsedOk, nr;
    }

    /** What reading the pieces came to. */
    method AfterPieces(end: PieceEnd, c: Cursor, k: nat, sum: byte, unicode: array<u16>, ghost p: nat, ghost m: nat)
        returns (again: bool, status: ParseStatus, nr: nat)
      requires Valid() && p < |entries| && p + m <= |entries| && end != MorePieces && Reading(p, k, m, end, c)
      requires sum == AliasSum(entries[p]) && m <= k <= 20 && 13 * k < unicode.Length
      requires Buffered(unicode[..], entries, p, k, m)
      ensures PassEnd(entries, p, k, m, again, status, c, nr, unicode[..])
      ensures !again && status == ParseEof <==> end == NoMore
    {
      hide Buffered, IsLong;
      again, status, nr := false, ParseInvalid, k;
      if end == NoMore {
        status := ParseEof;
      } else if end == NotPiece {
        status := ParseNotLong;
      } else if end == AllRead && !(IsLong(De(c)) && De(c)[0] != DELETED_FLAG) {
        status, nr := FinishParse(c, k, sum, unicode, p);
      } else {
        again := true;
      }
    }

    /** One pass from the label `parse_long`; `again` when the slot it stopped at starts anew. */
    method ParsePass(c: Cursor, unicode: array<u16>)
        returns (again: bool, status: ParseStatus, r: Cursor, nr: nat, ghost m: nat)
      requires Valid() && Points(c) && 261 <= unicode.Length
      modifies unicode
      ensures PassOutcome(entries, Index(c), m, again, status, r, nr, unicode[..])
      ensures if !again && status == ParseEof then r.bh == -1 else Points(r)
    {
      hide Text, Units, Parse, Checksum;
      var id := De(c);
      again, status, r, nr, m := false, ParseInvalid, c, 0, 0;
      if Leads(id) {
        nr := Count(id);
        if nr <= 20 && nr != 0 {
          var end;
          end, r, m := ReadPieces(c, nr, unicode, c.pos - 1);
          again, status, nr := AfterPieces(end, r, nr, AliasSum(id), unicode, c.pos - 1, m);
        }
      }
    }

    method ParseAgain(c: Cursor, unicode: array<u16>, ghost out: Parsed)
        returns (again: bool, status: ParseStatus, r: Cursor, nr: nat)
      requires Valid() && Points(c) && 261 <= unicode.Length && Parse(entries, Index(c)) == out
      modifies unicode
      ensures again ==> Points(r) && c.pos < r.pos && Parse(entries, Index(r)) == out
      ensures !again ==> Answers(out, status, r, nr, unicode[..])
      ensures if !again && status == ParseEof then r.bh == -1 else Points(r)
    {
      hide Parse, Text, Units, PassOutcome, Matching;
      ghost var m;
      again, status, r, nr, m := ParsePass(c, unicode);
      PassMeans(entries, c.pos - 1, m, again, status, r, nr, unicode[..]);
    }

    method ParseFrom(c: Cursor, unicode: array<u16>, ghost out: Parsed)
        returns (status: ParseStatus, r: Cursor, nr: nat)
      requires Valid() && Points(c) && 261 <= unicode.Length && Parse(entries, Index(c)) == out
      modifies unicode
      ensures Answers(out, status, r, nr, unicode[..])
      ensures if status == ParseEof then r.bh == -1 else Points(r)
      decreases |entries| - c.pos
    {
      var again;
      again, status, r, nr := ParseAgain(c, unicode, out);
      if again {
        status, r, nr := ParseFrom(r, unicode, out);
      }
    }

    /** `fat_parse_long`. */
    method ParseLong(c: Cursor, unicode: array<u16>) returns (status: ParseStatus, r: Cursor, nr: nat)
      requires Valid() && Points(c) && 261 <= unicode.Length
      modifies unicode
      ensures Answers(Parse(entries, Index(c)), status, r, nr, unicode[..])
      ensures if status == ParseEof then r.bh == -1 else Points(r)
    {
      status, r, nr := ParseFrom(c, unicode, Parse(entries, Index(c)));
    }
  
    // ----- finding an entry ---------------------------------------------------------------

    /** `fat_get_short_entry`: the next live short entry. */
    method GetShortEntry(c: Cursor) returns (ok: bool, r: Cursor)
      requires Valid() && Ready(c)
      ensures ok ==> Points(r) && c.pos < r.pos && LiveShort(entries[Index(r)])
      ensures ok ==> forall i :: c.pos <= i < Index(r) ==> !LiveShort(entries[i])
      ensures !ok ==> forall i :: c.pos <= i < |entries| ==> !LiveShort(entries[i])
    {
      ok, r := GetEntry(c);
      while ok && !LiveShort(De(r))
        invariant ok ==> Points(r) && c.pos < r.pos
        invariant forall i :: c.pos <= i < (if ok then Index(r) else |entries|) ==> !LiveShort(entries[i])
        decreases if ok then |entries| - r.pos + 1 else 0
      {
        ok, r := GetEntry(r);
      }
    }

    /** None of the first `n` slots is a live short entry of this name. */
    ghost predicate NoneNamed(n: int, name: seq<byte>)
      requires |name| == MSDOS_NAME
      reads this
    {
      n <= |entries| && forall i :: 0 <= i < n && LiveShort(entries[i]) ==> !StrnEq(ShortName(entries[i]), name)
    }

    /** `fat_scan`: the first live short entry of this name. */
    method Scan(name: seq<byte>) returns (found: bool, off: nat)
      requires Valid() && |name| == MSDOS_NAME
      ensures found <==> !NameFree(entries, name)
      ensures found ==> off < |entries| && LiveShort(entries[off]) && StrnEq(ShortName(entries[off]), name)
      ensures found ==> NoneNamed(off, name)
    {
      var ok, c := GetShortEntry(Cursor(0, -1, -1));
      while ok
        invariant ok ==> Points(c) && LiveShort(entries[Index(c)])
        invariant NoneNamed(if ok then c.pos - 1 else |entries|, name)
        decreases if ok then |entries| - c.pos + 1 else 0
      {
        found, off := StrnEq(ShortName(De(c)), name), c.pos - 1;
        if found {
          NotFree(off, name);
          return;
        }
        ok, c := ScanNext(c, name);
      }
      NoneIsFree(name);
      return false, 0;
    }

    lemma NotFree(off: nat, name: seq<byte>)
      requires |name| == MSDOS_NAME
      requires off < |entries| && LiveShort(entries[off]) && StrnEq(ShortName(entries[off]), name)
      ensures !NameFree(entries, name)
    {
    }

    lemma NoneIsFree(name: seq<byte>)
      requires |name| == MSDOS_NAME && NoneNamed(|entries|, name)
      ensures NameFree(entries, name)
    {
    }

    /** The next live short entry, none before it being of this name. */
    method ScanNext(c: Cursor, name: seq<byte>) returns (ok: bool, r: Cursor)
      requires Valid() && Points(c) && |name| == MSDOS_NAME && NoneNamed(c.pos - 1, name)
      requires !StrnEq(ShortName(entries[Index(c)]), name)
      ensures ok ==> Points(r) && c.pos < r.pos && LiveShort(entries[Index(r)])
      ensures NoneNamed(if ok then r.pos - 1 else |entries|, name)
    {
      ok, r := GetShortEntry(c);
      NamedOn(c.pos - 1, if ok then r.pos - 1 else |entries|, name);
    }

    lemma NamedOn(n: int, m: int, name: seq<byte>)
      requires 0 <= n < |entries| && n < m && |name| == MSDOS_NAME && NoneNamed(n, name) && m <= |entries|
      requires !StrnEq(ShortName(entries[n]), name) && forall i :: n < i < m ==> !LiveShort(entries[i])
      ensures NoneNamed(m, name)
    {
      forall i | 0 <= i < m && LiveShort(entries[i]) ensures !StrnEq(ShortName(entries[i]), name) {
        assert i <= n;
      }
    }

    /** Compare the short name under the cursor and the long name before it. */
    method Compare(c: Cursor, nr: nat, unicode: array<u16>, rd: Reader, name: seq<byte>, ghost u: seq<u16>)
        returns (same: bool)
      requires Valid() && Points(c)
      requires nr > 0 ==> |u| <= unicode.Length && unicode[..|u|] == u && 0 in u
      ensures same == Accepts(rd, name, entries[Index(c)], nr, u)
    {
      var bufname := rd.short(De(c));
      if bufname == [] {
        return false;
      }
      if rd.same(name, bufname) {
        return true;
      }
      if nr > 0 {
        ZeroInside(u, unicode[..]);
        return rd.same(name, rd.long(UpToZero(unicode[..])));
      }
      return false;
    }

    /** Where the search stands after a record: answered, or at a later slot, `fetched` or not. */
    ghost predicate SearchAt(
      c: Cursor, rd: Reader, name: seq<byte>, out: Hit, done: bool, hit: Hit, r: Cursor, fetched: bool)
      reads this
    {
      if done then hit == out && (hit.Hit? ==> Points(r) && r.pos == hit.off + hit.slots)
      else
        && Points(r) && (if fetched then c.pos < r.pos else c.pos <= r.pos)
        && Search(entries, if fetched then r.pos - 1 else r.pos, rd, name) == out
    }

    /** A short entry, with the parsed name before it or none. */
    method SearchEntry(c: Cursor, nr: nat, unicode: array<u16>, rd: Reader, name: seq<byte>, ghost u: seq<u16>)
        returns (done: bool, hit: Hit)
      requires Valid() && Points(c) && nr < c.pos
      requires nr > 0 ==> |u| <= unicode.Length && unicode[..|u|] == u && 0 in u
      ensures done == Accepts(rd, name, entries[Index(c)], nr, u)
      ensures done ==> hit == Hit(Index(c) - nr, nr + 1)
    {
      hit := Miss;
      done := Compare(c, nr, unicode, rd, name, u);
      if done {
        hit := Hit(c.pos - (nr + 1), nr + 1);
      }
    }

    /** The pieces of a long name under the cursor, and what they end in. */
    method SearchPieces(
      c: Cursor, unicode: array<u16>, rd: Reader, name: seq<byte>, ghost parsed: Parsed, ghost out: Hit)
        returns (done: bool, hit: Hit, r: Cursor, fetched: bool)
      requires Valid() && Points(c) && 261 <= unicode.Length
      requires Parse(entries, Index(c)) == parsed && SoundParse(entries, Index(c), parsed)
      requires SearchParsed(entries, Index(c), parsed, rd, name) == out
      modifies unicode
      ensures SearchAt(c, rd, name, out, done, hit, r, fetched)
    {
      var status, nr;
      status, r, nr := ParseFrom(c, unicode, parsed);
      done, hit, fetched := SearchAfter(c, status, r, nr, unicode, rd, name, parsed, out);
    }

    method SearchAfter(
      c: Cursor, status: ParseStatus, r: Cursor, nr: nat, unicode: array<u16>, rd: Reader, name: seq<byte>,
      ghost parsed: Parsed, ghost out: Hit)
        returns (done: bool, hit: Hit, fetched: bool)
      requires Valid() && Points(c) && SoundParse(entries, Index(c), parsed)
      requires Answers(parsed, status, r, nr, unicode[..]) && if status == ParseEof then r.bh == -1 else Points(r)
      requires SearchParsed(entries, Index(c), parsed, rd, name) == out
      ensures SearchAt(c, rd, name, out, done, hit, r, fetched)
    {
      hide Text, Units, RecordAt, UpToZero, Checksum;
      done, hit, fetched := false, Miss, false;
      match status {
        case ParseInvalid =>
        case ParseNotLong =>
          fetched := true;
        case ParseEof =>
          done := true;
        case ParsedOk =>
          TextHasZero(entries, c.pos - 1, parsed);
          done, hit := SearchEntry(r, nr, unicode, rd, name, parsed.units);
      }
    }

    /** The record, or the passed-over slot, under the cursor. */
    method SearchRecord(c: Cursor, unicode: array<u16>, rd: Reader, name: seq<byte>, ghost out: Hit)
        returns (done: bool, hit: Hit, r: Cursor, fetched: bool)
      requires Valid() && Points(c) && 261 <= unicode.Length && Search(entries, Index(c), rd, name) == out
      modifies unicode
      ensures SearchAt(c, rd, name, out, done, hit, r, fetched)
    {
      hide Text, Units, UpToZero, RecordAt, Checksum;
      done, hit, r, fetched := false, Miss, c, false;
      var de := De(c);
      if de[0] == DELETED_FLAG || (!IsLong(de) && IsVolume(de)) || (!IsLong(de) && IsFree(de)) {
        return;
      }
      if IsLong(de) {
        ParseSound(entries, c.pos - 1);
        SearchStep(entries, c.pos - 1, rd, name);
        done, hit, r, fetched := SearchPieces(c, unicode, rd, name, Parse(entries, c.pos - 1), out);
      } else {
        done, hit := SearchEntry(c, 0, unicode, rd, name, []);
      }
    }

    /** `fat_search_long`. */
    method SearchLong(rd: Reader, name: seq<byte>) returns (hit: Hit, r: Cursor)
      requires Valid()
      ensures hit == Search(entries, 0, rd, name)
      ensures hit.Hit? ==> Points(r) && r.pos == hit.off + hit.slots
    {
      var unicode := new u16[2048];
      ghost var out := Search(entries, 0, rd, name);
      var done, fetched, ok := false, false, true;
      hit, r := Miss, Cursor(0, -1, -1);
      while !done
        invariant ok && (!done ==> Ready(r) && (fetched ==> Points(r)))
        invariant !done ==> r.pos <= |entries|
        invariant !done ==> Search(entries, if fetched then r.pos - 1 else r.pos, rd, name) == out
        invariant done ==> hit == out && (hit.Hit? ==> Points(r) && r.pos == hit.off + hit.slots)
        decreases if done then 0 else |entries| - r.pos + 1, fetched
        modifies unicode
      {
        if !fetched {
          ok, r := GetEntry(r);
          if !ok {
            return Miss, r;
          }
        }
        done, hit, r, fetched := SearchRecord(r, unicode, rd, name, out);
      }
    }
  
    // ----- adding entries -------------------------------------------------------------------

    /** The buffer of one more free slot joins those of the run, unless it is the last of them. */
    method JoinRun(bhs: seq<nat>, prev: int, bh: nat, ghost lo: nat, ghost hi: nat)
        returns (r: seq<nat>, last: int)
      requires Valid() && InBlocks(bh) && bh <= hi < bh + perBlock && lo <= hi < lo + MSDOS_SLOTS
      requires Collected(bhs, prev, perBlock, lo, hi)
      ensures Collected(r, last, perBlock, lo, hi + 1)
    {
      CoversNext(bhs, perBlock, lo, hi, bh);
      r, last := bhs, prev;
      if prev != bh {
        r, last := bhs + [bh], bh;
      }
      AtMostThree(r, perBlock, lo, hi + 1);
    }

    /** First stage of `fat_add_entries`: a run of `n` free slots and the buffers that hold it. */
    method FindRoom(n: nat) returns (room: Room, off: nat, free: nat, bhs: seq<nat>)
      requires Valid() && 1 <= n <= MSDOS_SLOTS
      ensures RoomIs(entries, n, room, off, free)
      ensures room != RoomFull && free > 0 ==> Covers(bhs, perBlock, off, off + free) && |bhs| <= 3
    {
      hide Covers;
      var ok, c, prev := true, Cursor(0, -1, -1), -1;
      room, free, bhs := RoomAtEnd, 0, [];
      while true
        invariant Ready(c) && (c.pos == 0 || c.pos < FAT_MAX_DIR_ENTRIES)
        invariant Scanning(entries, n, c.pos, free)
        invariant Collected(bhs, prev, perBlock, c.pos - free, c.pos)
        decreases |entries| - c.pos
      {
        ghost var q := c.pos;
        ok, c := GetEntry(c);
        if !ok {
          break;
        }
        ScanOn(entries, n, q, free);
        if c.pos >= FAT_MAX_DIR_ENTRIES {
          return RoomFull, 0, free, bhs;
        }
        if IsFree(De(c)) {
          bhs, prev := JoinRun(bhs, prev, c.bh, q - free, q);
          free := free + 1;
          if free == n {
            return RoomFound, c.pos - free, free, bhs;
          }
        } else {
          bhs, prev, free := [], -1, 0;
        }
      }
      off := c.pos - free;
    }

    /** Copy slots into one buffer. */
    method CopyInto(bh: nat, offset: nat, part: seq<Slot>)
      requires Valid() && offset + |part| <= perBlock && bh + offset + |part| <= |entries|
      modifies this`entries
      ensures entries == Written(old(entries), bh + offset, part)
    {
      entries := Written(entries, bh + offset, part);
    }
  
    /** Second stage of `fat_add_entries`: the slots go over the run, buffer by buffer; the last
        buffer is left to the end when the short entry is in it. */
    method FillRun(off: nat, ss: seq<Slot>, bhs: seq<nat>, all: bool)
      requires Valid() && 0 < |ss| && Covers(bhs, perBlock, off, off + |ss|) && off + |ss| <= |entries|
      modifies this`entries
      ensures entries == Written(old(entries), off, ss)
    {
      var longBhs := |bhs| - (if all then 1 else 0);
      var i: nat, offset: nat, w: nat := 0, off % perBlock, 0;
      RunOffset(bhs, perBlock, off, off + |ss|);
      while i < longBhs
        invariant 0 <= i <= longBhs && 0 <= w <= |ss| && |entries| == |old(entries)|
        invariant FillAt(bhs, perBlock, off, |ss|, i, offset, w)
        invariant entries == Written(old(entries), off, ss[..w])
      {
        offset, w := FillBuffer(off, ss, bhs, i, offset, w, old(entries));
        i := i + 1;
      }
      if i < |bhs| {
        offset, w := FillBuffer(off, ss, bhs, i, offset, w, old(entries));
      }
      assert ss[..w] == ss;
    }

    method FillBuffer(off: nat, ss: seq<Slot>, bhs: seq<nat>, i: nat, offset: nat, w: nat, ghost was: seq<Slot>)
        returns (offset': nat, w': nat)
      requires Valid() && 0 < |ss| && Covers(bhs, perBlock, off, off + |ss|) && off + |ss| <= |entries| == |was|
      requires i < |bhs| && w <= |ss| && FillAt(bhs, perBlock, off, |ss|, i, offset, w)
      requires entries == Written(was, off, ss[..w])
      modifies this`entries
      ensures w' <= |ss| && FillAt(bhs, perBlock, off, |ss|, i + 1, offset', w')
      ensures |entries| == |was| && entries == Written(was, off, ss[..w'])
    {
      var copy := Min(perBlock - offset, |ss| - w);
      CoversOrder(bhs, perBlock, off, off + |ss|, i);
      WrittenPrefix(was, off, ss, w, copy);
      CopyInto(bhs[i], offset, ss[w..w + copy]);
      offset', w' := 0, w + copy;
    }
  
    // ----- growing the directory ------------------------------------------------------------

    /** Fill one new cluster, block by block, until nothing is left or the cluster is full. */
    method FillCluster(f: Fill, ghost done: seq<Slot>) returns (r: Fill)
      requires Valid() && f.left != [] && f.cur == |done| && Holds(f.area, done)
      requires f.cur + secPerClus * perBlock <= |f.area|
      ensures ClusterFilled(secPerClus, perBlock, f, done, r)
    {
      hide Holds, Written;
      var blk := 0;
      r := f;
      assert done + f.left[..0] == done;
      while blk < secPerClus
        invariant 0 <= blk <= secPerClus && r.n == f.n + blk && r.cur == f.cur + blk * perBlock
        invariant r.left != [] && |f.left| - |r.left| == blk * perBlock && r.left == f.left[blk * perBlock..]
        invariant |r.area| == |f.area| && Holds(r.area, done + f.left[..blk * perBlock])
      {
        Mono(blk + 1, secPerClus, perBlock);
        assert (blk + 1) * perBlock == blk * perBlock + perBlock;
        ghost var w := blk * perBlock;
        var copy := Min(|r.left|, perBlock);
        WrittenNext(r.area, done, f.left, w, copy);
        r := Fill(Written(r.area, r.cur, r.left[..copy]), r.cur, copy, r.n, r.left[copy..]);
        if r.left == [] {
          assert f.left[..w + copy] == f.left;
          return;
        }
        r := r.(cur := r.cur + perBlock, n := r.n + 1);
        blk := blk + 1;
      }
    }

    /** `fat_zeroed_cluster`: clear the cluster at `start` behind its first `used` blocks. */
    method ZeroedCluster(area: seq<Slot>, start: nat, used: nat) returns (r: seq<Slot>)
      requires Valid() && start + secPerClus * perBlock <= |area|
      ensures |r| == |area|
      ensures used >= secPerClus ==> r == area
      ensures used < secPerClus ==> start + used * perBlock <= |area| && Holds(r, area[..start + used * perBlock])
      ensures used < secPerClus ==> Cleared(r, start + used * perBlock, start + secPerClus * perBlock)
    {
      var b := used;
      r := area;
      while b < secPerClus
        invariant used <= b && |r| == |area| && (used >= secPerClus ==> r == area)
        invariant used < secPerClus ==> b <= secPerClus && start + used * perBlock <= start + b * perBlock <= |area|
        invariant used < secPerClus ==> Holds(r, area[..start + used * perBlock])
        invariant used < secPerClus ==> Cleared(r, start + used * perBlock, start + b * perBlock)
      {
        Mono(b + 1, secPerClus, perBlock);
        Mono(used, b, perBlock);
        assert (b + 1) * perBlock == b * perBlock + perBlock;
        ClearMore(r, area[..start + used * perBlock], start + used * perBlock, start + b * perBlock, perBlock);
        r := Written(r, start + b * perBlock, Zeros(perBlock));
        b := b + 1;
      }
    }

    /** Fill the new clusters with `rest`, block by block, and clear what remains of them. */
    method FillClusters(rest: seq<Slot>, junk: seq<Slot>, pc: nat, nr: nat) returns (area: seq<Slot>)
      requires Valid() && 1 <= |rest| <= MSDOS_SLOTS && 1 <= nr <= 2 && pc == secPerClus * perBlock
      requires |junk| == nr * pc && (nr - 1) * pc < |rest| <= nr * pc
      ensures |area| == nr * pc && area == rest + Zeros(|area| - |rest|)
    {
      var f, i, start := Fill(junk, 0, 0, 0, rest), 0, 0;
      OneBlockClusters(secPerClus, perBlock, nr, |rest|);
      while i < nr
        invariant 0 <= i <= nr && |f.area| == nr * pc
        invariant Filling(secPerClus, perBlock, pc, f, rest, i, nr, start)
      {
        Mono(i + 1, nr, pc);
        assert (i + 1) * pc == i * pc + pc;
        var r := FillCluster(f, rest[..f.cur]);
        FilledUp(secPerClus, perBlock, pc, f, r, rest, i, nr, start);
        start, f, i := f.cur, r, i + 1;
      }
      ClearFrom(secPerClus, perBlock, pc, f, rest, nr, start);
      area := ClearRest(f, rest, pc, start);
    }

    method ClearRest(f: Fill, rest: seq<Slot>, pc: nat, start: nat) returns (area: seq<Slot>)
      requires Valid() && pc == secPerClus * perBlock && start + pc == |f.area|
      requires Holds(f.area, rest) && f.copy <= perBlock && f.cur + f.copy == |rest| && f.cur + perBlock <= |f.area|
      requires f.n + 1 < secPerClus ==> start + (f.n + 1) * perBlock == f.cur + perBlock
      requires f.n + 1 >= secPerClus ==> f.cur + perBlock == |f.area|
      ensures |area| == |f.area| && area == rest + Zeros(|area| - |rest|)
    {
      ghost var hi := f.cur + perBlock;
      area := Written(f.area, f.cur + f.copy, Zeros(perBlock - f.copy));
      ghost var filled := area;
      ClearBehind(f.area, rest, hi);
      area := ZeroedCluster(area, start, f.n + 1);
      AllCleared(filled, area, rest, hi);
    }
  
    /** `fat_add_new_entries`, as far as the directory's own slots go: how many clusters, and what
        they hold. `alloc` is what comes of asking for them. */
    method AddNewEntries(rest: seq<Slot>, alloc: AddStatus) returns (status: AddStatus, area: seq<Slot>)
      requires Valid() && 1 <= |rest| <= MSDOS_SLOTS
      ensures status == if alloc == AddNoSpace then AddNoSpace else AddOk
      ensures secPerClus * perBlock > 0
      ensures status == AddOk ==> |area| == CeilDiv(|rest|, secPerClus * perBlock) * (secPerClus * perBlock)
      ensures status == AddOk ==> |area| % (secPerClus * perBlock) == 0 && |rest| <= |area|
      ensures status == AddOk ==> area == rest + Zeros(|area| - |rest|)
    {
      var pc := secPerClus * perBlock;
      Mono(1, secPerClus, perBlock);
      var nr := (|rest| + (pc - 1)) / pc;
      DivSplit(|rest| + (pc - 1), pc);
      Clusters(|rest|, pc, nr);
      assert nr <= 2;     // BUG_ON
      if alloc == AddNoSpace {
        return AddNoSpace, [];
      }
      var junk: seq<Slot> :| |junk| == nr * pc by { assert |Zeros(nr * pc)| == nr * pc; }
      area := FillClusters(rest, junk, pc, nr);
      DivOf(nr, 0, pc);
      status := AddOk;
    }

    /** `__fat_remove_entries`: mark `nr` slots deleted, block by block. */
    method MarkDeleted(pos: nat, nr: nat) returns (ok: bool)
      requires Valid() && pos <= |entries|
      modifies this`entries
      ensures ok <==> pos + nr <= |old(entries)|
      ensures MarkedDeleted(old(entries), entries, pos, Min(pos + nr, |old(entries)|))
    {
      var at, left := pos, nr;
      while left > 0
        invariant 0 <= left <= nr && at == pos + (nr - left) <= |entries| && Valid()
        invariant MarkedDeleted(old(entries), entries, pos, at)
      {
        var orig := left;
        var c;
        ok, c := GetEntry(Cursor(at, -1, -1));
        if !ok {
          return;
        }
        var de := c.de;
        while left > 0 && de < perBlock
          invariant 0 <= left <= orig && c.de <= de <= perBlock && de - c.de == orig - left
          invariant |entries| == |old(entries)| && MarkedDeleted(old(entries), entries, pos, at + (orig - left))
        {
          entries := entries[c.bh + de := Deleted(entries[c.bh + de])];
          de, left := de + 1, left - 1;
        }
        at := c.pos + (orig - left) - 1;
      }
      ok := true;
    }

    /** The name moves up one byte, last byte first, and the first byte marks the slot deleted. */
    method ShiftOut(s: Slot) returns (r: Slot)
      ensures r == Shifted(s)
    {
      var i := MSDOS_NAME - 1;
      r := s;
      while i > 0
        invariant 0 <= i <= MSDOS_NAME - 1
        invariant r == s[..i + 1] + s[i..MSDOS_NAME - 1] + s[MSDOS_NAME..]
      {
        r := r[i := r[i - 1]];
        i := i - 1;
      }
      r := r[0 := DELETED_FLAG];
    }

    /** `fat_remove_entries`: first stage backwards through the buffer of the short entry, second
        stage forwards over what is left of the long name. */
    method RemoveEntries(off: nat, nr: nat, c: Cursor)
      requires Valid() && Points(c) && 1 <= nr && c.pos == off + nr
      modifies this`entries
      ensures Removed(old(entries), entries, off, if c.bh <= off then off else c.bh, off + nr)
    {
      var left, de := nr, c.de;
      while left > 0 && de >= 0
        invariant 0 <= left <= nr && -1 <= de <= c.de && c.de - de == nr - left
        invariant Removed(old(entries), entries, off + left, off + left, off + nr)
      {
        var s := ShiftOut(entries[c.bh + de]);
        entries := entries[c.bh + de := s];
        de, left := de - 1, left - 1;
      }
      if left > 0 {
        label Second:
        ghost var first := entries;
        var ok := MarkDeleted(off, left);
        assert MarkedDeleted(first, entries, off, off + left);
      }
    }

    /** Third stage of `fat_add_entries`: what did not fit goes to new clusters; if there are none
        to be had, the slots already filled are marked deleted. */
    method AddRest(off: nat, ss: seq<Slot>, free: nat, alloc: AddStatus, ghost was: seq<Slot>)
        returns (status: AddStatus, ghost grown: nat)
      requires Valid() && free < |ss| <= MSDOS_SLOTS && off + free == |was| == |entries| && AllFree(was, off, free)
      requires entries == Written(was, off, ss[..free])
      modifies this`entries
      ensures Valid() && status == alloc && secPerClus * perBlock > 0
      ensures status == AddOk ==> |ss| - free <= grown && entries == Written(was + Zeros(grown), off, ss)
      ensures status == AddOk ==> grown == CeilDiv(|ss| - free, secPerClus * perBlock) * (secPerClus * perBlock)
      ensures status != AddOk ==> OnlyFreeDiffer(was, entries, 0) && |entries| == |was| && grown == 0
    {
      var area;
      status, area := AddNewEntries(ss[free..], alloc);
      if status == AddOk {
        status := alloc;     // `fat_chain_add`
      }
      grown := 0;
      if status != AddOk {
        if free > 0 {
          var ok := MarkDeleted(off, free);
        }
        return;
      }
      entries := entries + area;
      grown := |area|;
      FillIn(was, off, ss, free, grown);
      WholeBlocks(|was|, grown, secPerClus, perBlock);
    }

    /** How many clusters an addition of `n` slots will ask for. */
    method ClustersNeeded(n: nat) returns (nr: nat)
      requires Valid() && 1 <= n <= MSDOS_SLOTS
      ensures secPerClus * perBlock > 0 && nr == Needed(entries, n, secPerClus * perBlock) <= 2
    {
      Mono(1, secPerClus, perBlock);
      var pc := secPerClus * perBlock;
      var room, off, free, bhs := FindRoom(n);
      RoomNeeds(entries, n, room, off, free, pc);
      if room == RoomAtEnd {
        nr := CeilDiv(n - free, pc);
        DivSplit(n - free + (pc - 1), pc);
        Clusters(n - free, pc, nr);
      } else {
        nr := 0;
      }
    }

    /** May the directory get clusters of its own? */
    predicate Growable()
      reads this
    {
      if isRoot then fat32 else start != 0
    }

    /** What comes of adding `n` slots: they go into a free run; or there is none, and then the
        directory may be full, a fixed area, broken, or get the clusters or not. */
    ghost function AddOutcome(n: nat, alloc: AddStatus): AddStatus
      reads this
    {
      if !NoRun(entries, n, Min(|entries|, FAT_MAX_DIR_ENTRIES - 1)) then AddOk
      else if |entries| >= FAT_MAX_DIR_ENTRIES || (isRoot && !fat32) then AddNoSpace
      else if !isRoot && start == 0 then AddIoError
      else alloc
    }

    /** `fat_add_entries`; `alloc` is what comes of asking for clusters, if need be. */
    method AddEntries(ss: seq<Slot>, alloc: AddStatus) returns (status: AddStatus, off: nat, ghost grown: nat)
      requires Valid() && 1 <= |ss| <= MSDOS_SLOTS
      modifies this`entries
      ensures Valid() && secPerClus * perBlock > 0
      ensures status == AddOk ==> Added(old(entries), entries, off, ss, grown)
      ensures status == AddOk ==> grown == Needed(old(entries), |ss|, secPerClus * perBlock) * (secPerClus * perBlock)
      ensures status == AddOk && perBlock % 2 == 0 ==> off < FAT_MAX_DIR_ENTRIES - 1
      ensures status != AddOk ==> OnlyFreeDiffer(old(entries), entries, 0) && |entries| == |old(entries)|
      ensures status == old(AddOutcome(|ss|, alloc))
      ensures status == AddOk <==>
        || old(!NoRun(entries, |ss|, Min(|entries|, 65535)))
        || (|old(entries)| < 65536 && old(Growable()) && alloc == AddOk)
      ensures |old(entries)| >= 65536 && old(NoRun(entries, |ss|, 65535)) ==> status == AddNoSpace
      ensures |old(entries)| < 65536 && old(NoRun(entries, |ss|, |entries|)) ==>
        status == if isRoot then (if fat32 then alloc else AddNoSpace) else if start == 0 then AddIoError else alloc
    {
      hide NoRun, TrailingFree, AllFree;
      Mono(1, secPerClus, perBlock);
      var room, free, bhs;
      room, off, free, bhs := FindRoom(|ss|);
      grown := 0;
      RoomMeans(entries, |ss|, room, off, free);
      RoomNeeds(entries, |ss|, room, off, free, secPerClus * perBlock);
      if room == RoomFull {
        return AddNoSpace, off, 0;
      }
      if room == RoomAtEnd {
        if isRoot && !fat32 {
          return AddNoSpace, off, 0;
        }
        if !isRoot && start == 0 {
          return AddIoError, off, 0;
        }
      }
      ghost var was := entries;
      FillStart(was, off, ss, free);
      if free > 0 {
        FillRun(off, ss[..free], bhs, free == |ss|);
      }
      status := AddOk;
      if free < |ss| {
        status, grown := AddRest(off, ss, free, alloc, was);
      }
      if status == AddOk {
        AddedIs(was, entries, off, ss, free, room, grown);
        if perBlock % 2 == 0 {
          EvenSize(|was|, perBlock);
        }
      }
    }
  }
}
