/** GetMatches and Skip of Bt2, Bt3 and Bt4 at one position: the short-match heads, the tree search,
    and what the reported list means. */
module LzMatches {
  import opened Words
  import opened LzTree
  import opened LzSon
  import opened LzHash
  import opened LzWindow
  import opened LzBuckets

  /** The arrays a search reads and writes: newest positions per 2-byte and 3-byte hash, the heads
      of the main buckets, and the sons. */
  datatype Tables = Tables(head2: seq<UInt32>, head3: seq<UInt32>, heads: seq<UInt32>, son: seq<UInt32>)

  predicate HeadsSized(c: Config, tb: Tables) {
    c.Ok() && |tb.head2| == HASH2_SIZE && |tb.head3| == HASH3_SIZE && |tb.heads| == c.buckets
  }

  predicate Sized(c: Config, v: View, tb: Tables) {
    HeadsSized(c, tb) && v.Valid() && |tb.son| == 2 * v.cyclicSize
  }

  function H2At(c: Config, data: seq<Byte>, i: int): (h: nat)
    ensures h < HASH2_SIZE
  {
    H2(c.crc, At(data, i, 0), At(data, i, 1))
  }

  function H3At(c: Config, data: seq<Byte>, i: int): (h: nat)
    ensures h < HASH3_SIZE
  {
    H3(c.crc, At(data, i, 0), At(data, i, 1), At(data, i, 2))
  }

  /** The two head hashes as functions of the string index. */
  function Hash2(c: Config, data: seq<Byte>): int -> nat {
    i => H2At(c, data, i)
  }

  function Hash3(c: Config, data: seq<Byte>): int -> nat {
    i => H3At(c, data, i)
  }

  /** A head candidate is used when it is in the window and its first byte is right. */
  predicate Usable(data: seq<Byte>, v: View, ref: UInt32) {
    v.InWindow(ref) && At(data, v.cur - v.Delta(ref), 0) == At(data, v.cur, 0)
  }

  /** The matches taken from the heads, and the length reached. */
  datatype Candidates = Candidates(first: seq<Match>, maxLen: nat)

  function HeadMatches(c: Config, data: seq<Byte>, v: View, tb: Tables, lim: nat): Candidates
    requires HeadsSized(c, tb) && v.Valid() && c.bytes <= lim
  {
    if c.bytes == 2 then
      Candidates([], 1)
    else
      var ref2 := tb.head2[H2At(c, data, v.cur)];
      var d2 := v.Delta(ref2);
      if c.bytes == 3 then
        if Usable(data, v, ref2) then
          var len := Lcp(data, v.cur - d2, v.cur, 2, lim);
          Candidates([Match(len, d2 - 1)], len)
        else
          Candidates([], 2)
      else
        var ref3 := tb.head3[H3At(c, data, v.cur)];
        var d3 := v.Delta(ref3);
        if d2 != d3 && Usable(data, v, ref3) then
          var len := Lcp(data, v.cur - d3, v.cur, 3, lim);
          Candidates((if Usable(data, v, ref2) then [Match(2, d2 - 1)] else []) + [Match(len, d3 - 1)], len)
        else if Usable(data, v, ref2) then
          var len := Lcp(data, v.cur - d2, v.cur, 2, lim);
          Candidates([Match(len, d2 - 1)], len)
        else
          Candidates([], 0)
  }

  /** The hash tables with position `pos` entered for the string at `cur`. */
  function EnterHeads(c: Config, data: seq<Byte>, cur: nat, pos: UInt32, tb: Tables): Tables
    requires HeadsSized(c, tb)
  {
    tb.(head2 := if c.bytes >= 3 then tb.head2[H2At(c, data, cur) := pos] else tb.head2,
        head3 := if c.bytes == 4 then tb.head3[H3At(c, data, cur) := pos] else tb.head3,
        heads := tb.heads[c.MainHash(data, cur) := pos])
  }

  /** The length the tree search has to beat. */
  function Threshold(c: Config, maxLen: nat): nat {
    if maxLen < c.bytes - 1 then c.bytes - 1 else maxLen
  }

  datatype Outcome = Outcome(tables: Tables, found: seq<Match>)

  /** GetMatches of Bt2, Bt3, Bt4 before MOVE_POS, with at least `c.bytes` bytes ahead. */
  function GetMatches(c: Config, data: seq<Byte>, v: View, tb: Tables, lim: nat): Outcome
    requires Sized(c, v, tb) && c.bytes <= lim
  {
    var ref := tb.heads[c.MainHash(data, v.cur)];
    var cand := HeadMatches(c, data, v, tb, lim);
    if cand.first != [] && cand.maxLen == lim then
      Outcome(EnterHeads(c, data, v.cur, v.pos, tb).(son := SkipSon(c, data, v, tb.son, ref, lim)), cand.first)
    else
      var maxLen := Threshold(c, cand.maxLen);
      HeadMatchesBounded(c, data, v, tb, lim);
      var r := SonAfter(c, data, v, tb.son, ref, lim, maxLen);
      Outcome(EnterHeads(c, data, v.cur, v.pos, tb).(son := r.son), cand.first + r.found)
  }

  function SkipSon(c: Config, data: seq<Byte>, v: View, son: seq<UInt32>, ref: UInt32, lim: nat): (r: seq<UInt32>)
    requires v.Valid() && |son| == 2 * v.cyclicSize && 0 < lim
    ensures |r| == |son|
  {
    SkipLoop(data, v, son, 2 * v.cyclicPos + 1, 2 * v.cyclicPos, ref, c.cutValue, 0, 0, lim)
  }

  /** Skip of Bt2, Bt3, Bt4 for one position, before MOVE_POS. */
  function Skip(c: Config, data: seq<Byte>, v: View, tb: Tables, lim: nat): (r: Tables)
    requires Sized(c, v, tb) && c.bytes <= lim
    ensures Sized(c, v, r)
  {
    EnterHeads(c, data, v.cur, v.pos, tb).(son := SkipSon(c, data, v, tb.son, tb.heads[c.MainHash(data, v.cur)], lim))
  }

  lemma HeadMatchesBounded(c: Config, data: seq<Byte>, v: View, tb: Tables, lim: nat)
    requires HeadsSized(c, tb) && v.Valid() && c.bytes <= lim
    ensures var cand := HeadMatches(c, data, v, tb, lim);
            && cand.maxLen <= lim && (cand.first == [] ==> cand.maxLen < c.bytes)
            && ((cand.first != [] ==> cand.maxLen != lim) ==> Threshold(c, cand.maxLen) < lim)
  {
    hide Usable, H2At, H3At, View.Delta;
  }

  /** From every state, GetMatches and Skip(1) leave the same hash tables and the same sons. */
  lemma GetIsSkip(c: Config, data: seq<Byte>, v: View, tb: Tables, lim: nat)
    requires Sized(c, v, tb) && c.bytes <= lim
    ensures GetMatches(c, data, v, tb, lim).tables == Skip(c, data, v, tb, lim)
  {
    hide HeadMatches, GetLoop, SkipLoop, EnterHeads, Config.MainHash;
    HeadMatchesBounded(c, data, v, tb, lim);
    var cand := HeadMatches(c, data, v, tb, lim);
    if !(cand.first != [] && cand.maxLen == lim) {
      SkipIsGet(data, v, tb.son, 2 * v.cyclicPos + 1, 2 * v.cyclicPos, tb.heads[c.MainHash(data, v.cur)],
                c.cutValue, 0, 0, lim, Threshold(c, cand.maxLen));
    }
  }

  // ---- The heads hold the newest positions ----

  /** `ref` is the newest string before `b` whose hash `hash` gives `slot`, or none is in the window. */
  ghost predicate NewestAt(data: seq<Byte>, v: View, b: nat, hash: int -> nat, slot: nat, ref: UInt32) {
    && ref <= v.pos
    && (v.InWindow(ref) ==> v.Delta(ref) <= v.cur && v.cur - v.Delta(ref) < b && hash(v.cur - v.Delta(ref)) == slot)
    && forall y: nat :: v.cur - v.cyclicSize < y < b && hash(y) == slot ==>
                     v.InWindow(ref) && y <= v.cur - v.Delta(ref)
  }

  ghost predicate Newest(data: seq<Byte>, v: View, b: nat, hash: int -> nat, refs: seq<UInt32>) {
    forall slot :: 0 <= slot < |refs| ==> NewestAt(data, v, b, hash, slot, refs[slot])
  }

  ghost predicate HeadsNewest(c: Config, data: seq<Byte>, v: View, b: nat, tb: Tables) {
    && (c.bytes >= 3 ==> Newest(data, v, b, Hash2(c, data), tb.head2))
    && (c.bytes == 4 ==> Newest(data, v, b, Hash3(c, data), tb.head3))
  }

  lemma NewestEnter(data: seq<Byte>, v: View, hash: int -> nat, refs: seq<UInt32>)
    requires v.Valid() && hash(v.cur) < |refs| && Newest(data, v, v.cur, hash, refs)
    ensures Newest(data, v, v.cur + 1, hash, refs[hash(v.cur) := v.pos])
  {
    hide View.Delta;
    CurrentRef(v);
    var refs' := refs[hash(v.cur) := v.pos];
    forall slot | 0 <= slot < |refs'| ensures NewestAt(data, v, v.cur + 1, hash, slot, refs'[slot]) {
      assert NewestAt(data, v, v.cur, hash, slot, refs[slot]);
    }
  }

  lemma NewestMovesOn(data: seq<Byte>, v: View, b: nat, hash: int -> nat, refs: seq<UInt32>)
    requires v.Valid() && v.pos < MAX_VAL_FOR_NORMALIZE && Newest(data, v, b, hash, refs)
    ensures Newest(data, NextView(v), b, hash, refs)
  {
    hide View.Delta, NextView;
    NextFields(v);
    forall slot | 0 <= slot < |refs| ensures NewestAt(data, NextView(v), b, hash, slot, refs[slot]) {
      assert NewestAt(data, v, b, hash, slot, refs[slot]);
      NextDelta(v, refs[slot]);
    }
  }

  lemma NewestRenumbered(data: seq<Byte>, v: View, b: nat, hash: int -> nat, sub: UInt32, refs: seq<UInt32>)
    requires v.Valid() && sub <= v.pos - v.cyclicSize && Newest(data, v, b, hash, refs)
    ensures Newest(data, v.(pos := v.pos - sub), b, hash, RenumberAll(sub, refs))
  {
    hide View.Delta, Renumber;
    var v' := v.(pos := v.pos - sub);
    forall slot | 0 <= slot < |refs| ensures NewestAt(data, v', b, hash, slot, RenumberAll(sub, refs)[slot]) {
      assert NewestAt(data, v, b, hash, slot, refs[slot]);
      RenumberKeepsDelta(v, sub, refs[slot]);
    }
  }

  // ---- What is reported ----

  /** A true match: the distance names an earlier string of the window, the length is exactly how
      far it agrees with the current one. */
  ghost predicate Exact(data: seq<Byte>, v: View, lim: nat, m: Match) {
    var x := v.cur - 1 - m.dist;
    0 <= x < v.cur && v.cur - v.cyclicSize < x && m.len == Len(data, x, v.cur, lim)
  }

  /** No string of the window nearer than `x` agrees with the current one on `n` bytes. */
  ghost predicate NoneNearer(data: seq<Byte>, v: View, lim: nat, x: int, n: nat) {
    forall y: nat :: x < y < v.cur && v.cur - v.cyclicSize < y ==> Len(data, y, v.cur, lim) < n
  }

  /** A usable head of the 2-byte table is a genuine 2-byte match, and the nearest. */
  lemma Head2Genuine(c: Config, data: seq<Byte>, v: View, tb: Tables, lim: nat)
    requires HeadsSized(c, tb) && v.Valid() && 2 <= lim && Newest(data, v, v.cur, Hash2(c, data), tb.head2)
    ensures var ref := tb.head2[H2At(c, data, v.cur)];
            var x := v.cur - v.Delta(ref);
            Usable(data, v, ref) ==>
              && 0 <= x < v.cur && v.cur - v.cyclicSize < x
              && Len(data, x, v.cur, lim) >= 2 && NoneNearer(data, v, lim, x, 2)
  {
    hide View.Delta, H2, Lcp;
    var slot := H2At(c, data, v.cur);
    var ref := tb.head2[slot];
    var x := v.cur - v.Delta(ref);
    assert NewestAt(data, v, v.cur, Hash2(c, data), slot, ref);
    if Usable(data, v, ref) {
      H2Genuine(c.crc, At(data, x, 0), At(data, x, 1), At(data, v.cur, 0), At(data, v.cur, 1));
      assert At(data, x, 1) == At(data, v.cur, 1);
      TwoBytes(data, x, v.cur, lim);
      forall y: nat | x < y < v.cur && v.cur - v.cyclicSize < y ensures Len(data, y, v.cur, lim) < 2 {
        TwoBytes(data, y, v.cur, lim);
        assert Len(data, y, v.cur, lim) >= 2 ==> Hash2(c, data)(y) == slot;
      }
    }
  }

  /** A usable head of the 3-byte table is a genuine 3-byte match, and the nearest. */
  lemma Head3Genuine(c: Config, data: seq<Byte>, v: View, tb: Tables, lim: nat)
    requires HeadsSized(c, tb) && v.Valid() && 3 <= lim && Newest(data, v, v.cur, Hash3(c, data), tb.head3)
    ensures var ref := tb.head3[H3At(c, data, v.cur)];
            var x := v.cur - v.Delta(ref);
            Usable(data, v, ref) ==>
              && 0 <= x < v.cur && v.cur - v.cyclicSize < x
              && Len(data, x, v.cur, lim) >= 3 && NoneNearer(data, v, lim, x, 3)
  {
    hide View.Delta, H3, Lcp;
    var slot := H3At(c, data, v.cur);
    var ref := tb.head3[slot];
    var x := v.cur - v.Delta(ref);
    assert NewestAt(data, v, v.cur, Hash3(c, data), slot, ref);
    if Usable(data, v, ref) {
      H3Genuine(c.crc, At(data, x, 0), At(data, x, 1), At(data, x, 2), At(data, v.cur, 0), At(data, v.cur, 1),
                At(data, v.cur, 2));
      ThreeBytes(data, x, v.cur, lim);
      forall y: nat | x < y < v.cur && v.cur - v.cyclicSize < y ensures Len(data, y, v.cur, lim) < 3 {
        ThreeBytes(data, y, v.cur, lim);
        assert Len(data, y, v.cur, lim) >= 3 ==> Hash3(c, data)(y) == slot;
      }
    }
  }

  lemma TwoBytes(data: seq<Byte>, i: int, j: int, lim: nat)
    requires 2 <= lim
    ensures Len(data, i, j, lim) >= 2 <==> At(data, i, 0) == At(data, j, 0) && At(data, i, 1) == At(data, j, 1)
  {
  }

  lemma ThreeBytes(data: seq<Byte>, i: int, j: int, lim: nat)
    requires 3 <= lim
    ensures Len(data, i, j, lim) >= 3 <==>
            At(data, i, 0) == At(data, j, 0) && At(data, i, 1) == At(data, j, 1) && At(data, i, 2) == At(data, j, 2)
  {
    TwoBytes(data, i, j, lim);
  }

  /** A 3-byte match in the window is visible to both tables: the 3-byte head is at least as near,
      and a usable 3-byte head makes the 2-byte head at least as near as itself. */
  lemma HeadsNested(c: Config, data: seq<Byte>, v: View, tb: Tables, lim: nat, x: nat)
    requires HeadsSized(c, tb) && v.Valid() && 3 <= lim
    requires v.cur - v.cyclicSize < x < v.cur && Len(data, x, v.cur, lim) >= 3
    requires Newest(data, v, v.cur, Hash2(c, data), tb.head2) && Newest(data, v, v.cur, Hash3(c, data), tb.head3)
    ensures var ref := tb.head2[H2At(c, data, v.cur)]; v.InWindow(ref) && x <= v.cur - v.Delta(ref)
    ensures var ref := tb.head3[H3At(c, data, v.cur)]; v.InWindow(ref) && x <= v.cur - v.Delta(ref)
  {
    hide View.Delta, H2, H3;
    ThreeBytes(data, x, v.cur, lim);
    var slot2, slot3 := H2At(c, data, v.cur), H3At(c, data, v.cur);
    assert Hash2(c, data)(x) == slot2 && Hash3(c, data)(x) == slot3;
    assert NewestAt(data, v, v.cur, Hash2(c, data), slot2, tb.head2[slot2]);
    assert NewestAt(data, v, v.cur, Hash3(c, data), slot3, tb.head3[slot3]);
  }

  /** What the head candidates are worth: exact matches, increasing, the last one the nearest string
      that can reach `c.bytes` bytes; earlier ones are too short to matter. */
  ghost predicate GoodFirst(c: Config, data: seq<Byte>, v: View, lim: nat, cand: Candidates) {
    var n := |cand.first|;
    && n <= 2 && (n == 0 ==> cand.maxLen < c.bytes)
    && (forall k :: 0 <= k < n ==> Exact(data, v, lim, cand.first[k]))
    && Increasing(cand.first, 1, 0)
    && (n > 0 ==>
          && cand.first[n - 1].len == cand.maxLen
          && NoneNearer(data, v, lim, v.cur - 1 - cand.first[n - 1].dist, c.bytes))
    && (n == 2 ==> cand.first[0].len < c.bytes)
  }

  lemma NoneNearerWeaken(data: seq<Byte>, v: View, lim: nat, x: int, n: nat, n': nat)
    requires NoneNearer(data, v, lim, x, n) && n <= n'
    ensures NoneNearer(data, v, lim, x, n')
  {
  }

  lemma OneHead(c: Config, data: seq<Byte>, v: View, lim: nat, ref: UInt32, k: nat)
    requires v.Valid() && v.InWindow(ref) && 2 <= k <= c.bytes && k <= lim
    requires var x := v.cur - v.Delta(ref);
             0 <= x < v.cur && v.cur - v.cyclicSize < x && Len(data, x, v.cur, lim) >= k
                 && NoneNearer(data, v, lim, x, c.bytes)
    ensures var len := Lcp(data, v.cur - v.Delta(ref), v.cur, k, lim);
            GoodFirst(c, data, v, lim, Candidates([Match(len, v.Delta(ref) - 1)], len))
  {
    hide View.Delta;
    LcpStartsLater(data, v.cur - v.Delta(ref), v.cur, k, lim);
  }

  lemma HeadMatchesGood(c: Config, data: seq<Byte>, v: View, tb: Tables, lim: nat)
    requires HeadsSized(c, tb) && v.Valid() && c.bytes <= lim && HeadsNewest(c, data, v, v.cur, tb)
    ensures GoodFirst(c, data, v, lim, HeadMatches(c, data, v, tb, lim))
  {
    hide View.Delta, H2At, H3At, GoodFirst, Lcp, Len, NoneNearer, Newest;
    if c.bytes == 2 {
      NoHeads(c, data, v, lim, Candidates([], 1));
      return;
    }
    var ref2 := tb.head2[H2At(c, data, v.cur)];
    var x2 := v.cur - v.Delta(ref2);
    Head2Genuine(c, data, v, tb, lim);
    if Usable(data, v, ref2) {
      NoneNearerWeaken(data, v, lim, x2, 2, c.bytes);
      OneHead(c, data, v, lim, ref2, 2);
    }
    if c.bytes == 3 {
      if !Usable(data, v, ref2) {
        NoHeads(c, data, v, lim, Candidates([], 2));
      }
      return;
    }
    var ref3 := tb.head3[H3At(c, data, v.cur)];
    var x3 := v.cur - v.Delta(ref3);
    Head3Genuine(c, data, v, tb, lim);
    NoHeads(c, data, v, lim, Candidates([], 0));
    if Usable(data, v, ref3) && x2 != x3 {
      NoneNearerWeaken(data, v, lim, x3, 3, c.bytes);
      OneHead(c, data, v, lim, ref3, 3);
      HeadsNested(c, data, v, tb, lim, x3);
      if Usable(data, v, ref2) {
        if Len(data, x2, v.cur, lim) >= 3 {
          HeadsNested(c, data, v, tb, lim, x2);
        }
        TwoHeads(c, data, v, lim, ref2, ref3);
      } else {
        var len := Lcp(data, x3, v.cur, 3, lim);
        assert [] + [Match(len, v.Delta(ref3) - 1)] == [Match(len, v.Delta(ref3) - 1)];
      }
    }
  }

  lemma NoHeads(c: Config, data: seq<Byte>, v: View, lim: nat, cand: Candidates)
    requires cand.first == [] && cand.maxLen < c.bytes
    ensures GoodFirst(c, data, v, lim, cand)
  {
  }

  lemma TwoHeads(c: Config, data: seq<Byte>, v: View, lim: nat, ref2: UInt32, ref3: UInt32)
    requires v.Valid() && c.bytes == 4 <= lim && v.InWindow(ref2) && v.InWindow(ref3)
    requires var x2, x3 := v.cur - v.Delta(ref2), v.cur - v.Delta(ref3);
             && 0 <= x3 < x2 < v.cur && v.cur - v.cyclicSize < x3
             && Len(data, x2, v.cur, lim) == 2 && Len(data, x3, v.cur, lim) >= 3
             && NoneNearer(data, v, lim, x3, c.bytes)
    ensures var len := Lcp(data, v.cur - v.Delta(ref3), v.cur, 3, lim);
            GoodFirst(c, data, v, lim, Candidates([Match(2, v.Delta(ref2) - 1)] + [Match(len, v.Delta(ref3) - 1)], len))
  {
    hide View.Delta;
    LcpStartsLater(data, v.cur - v.Delta(ref3), v.cur, 3, lim);
  }

  // ---- The whole reported list ----

  ghost predicate AllExact(data: seq<Byte>, v: View, lim: nat, found: seq<Match>) {
    forall k :: 0 <= k < |found| ==> Exact(data, v, lim, found[k])
  }

  /** The tree part, for any cutValue: exact matches, longer than the threshold, increasing. */
  lemma TailGood(c: Config, data: seq<Byte>, v: View, lim: nat, maxLen: nat, heads: seq<UInt32>, son: seq<UInt32>,
                 trees: seq<Tree>)
    requires c.Ok() && v.Valid() && |son| == 2 * v.cyclicSize && maxLen < lim
    requires Buckets(c, data, v, v.cur, lim, heads, son, trees)
    ensures var found := SonAfter(c, data, v, son, heads[c.MainHash(data, v.cur)], lim, maxLen).found;
            Increasing(found, maxLen, 0) && AllExact(data, v, lim, found)
  {
    hide SonAfter, Config.MainHash, Rep, Distinct, OlderThan, Ordered, Len, Scan, SearchTree, Nodes, Increasing;
    var h0 := c.MainHash(data, v.cur);
    var t := trees[h0];
    assert BucketOk(c, data, v, v.cur, lim, h0, heads[h0], son, t);
    BucketInserts(c, data, v, lim, maxLen, h0, heads[h0], son, t);
    NearAtStart(data, t, v.cur, lim);
    FoundIsScan(data, t, v.cur, v.cur, lim, c.cutValue, 0, 0, maxLen);
    RepInWindow(son, heads[h0], t, v);
    var found := SonAfter(c, data, v, son, heads[h0], lim, maxLen).found;
    var scan := Scan(data, Nodes(t), v.cur, v.cur, lim, maxLen);
    ScanIncreases(data, Nodes(t), v.cur, v.cur, lim, maxLen);
    IncreasingPrefix(found, scan, maxLen, 0);
    forall k | 0 <= k < |found| ensures Exact(data, v, lim, found[k]) {
      assert found[k] == scan[k];
      ScanReports(data, Nodes(t), v.cur, v.cur, lim, maxLen, scan[k]);
    }
  }

  lemma IncreasingPrefix(found: seq<Match>, scan: seq<Match>, minLen: int, minDist: int)
    requires found <= scan && Increasing(scan, minLen, minDist)
    ensures Increasing(found, minLen, minDist)
  {
  }

  lemma IncreasingJoin(a: seq<Match>, b: seq<Match>)
    requires Increasing(a, 1, 0) && a != []
    requires Increasing(b, a[|a| - 1].len, 0)
    requires forall k :: 0 <= k < |b| ==> a[|a| - 1].dist < b[k].dist
    ensures Increasing(a + b, 1, 0)
  {
  }

  /** A longer match than the last head match lies farther back. */
  lemma TailFarther(c: Config, data: seq<Byte>, v: View, lim: nat, cand: Candidates, m: Match)
    requires c.Ok() && GoodFirst(c, data, v, lim, cand) && cand.first != []
    requires Exact(data, v, lim, m) && m.len > Threshold(c, cand.maxLen)
    ensures cand.first[|cand.first| - 1].dist < m.dist
  {
    hide Len;
    var last := cand.first[|cand.first| - 1];
    assert Exact(data, v, lim, last);
    var x, y := v.cur - 1 - last.dist, v.cur - 1 - m.dist;
    assert y != x;
    assert !(x < y);
  }

  /** The reported matches of at least `n` bytes. */
  function Long(found: seq<Match>, n: nat): seq<Match> {
    if found == [] then []
    else (if found[0].len >= n then [found[0]] else []) + Long(found[1..], n)
  }

  lemma LongUnfolds(m: Match, rest: seq<Match>, n: nat)
    ensures Long([], n) == []
    ensures Long([m] + rest, n) == (if m.len >= n then [m] else []) + Long(rest, n)
  {
    assert ([m] + rest)[1..] == rest;
  }

  lemma {:induction false} LongJoin(a: seq<Match>, b: seq<Match>, n: nat)
    ensures Long(a + b, n) == Long(a, n) + Long(b, n)
    decreases |a|
  {
    hide Long;
    if a == [] {
      assert a + b == b;
      LongUnfolds(Match(0, 0), [], n);
    } else {
      var m, rest := a[0], a[1..];
      LongJoin(rest, b, n);
      assert a == [m] + rest && a + b == [m] + (rest + b);
      LongUnfolds(m, rest, n);
      LongUnfolds(m, rest + b, n);
    }
  }

  lemma {:induction false} LongAll(found: seq<Match>, n: nat)
    requires forall k :: 0 <= k < |found| ==> found[k].len >= n
    ensures Long(found, n) == found
    decreases |found|
  {
    if found != [] {
      LongAll(found[1..], n);
    }
  }

  lemma LongFirst(c: Config, data: seq<Byte>, v: View, lim: nat, cand: Candidates)
    requires GoodFirst(c, data, v, lim, cand) && cand.first != []
    ensures Long(cand.first, c.bytes) == if cand.maxLen >= c.bytes then [cand.first[|cand.first| - 1]] else []
  {
    hide Exact, NoneNearer, Increasing;
    var n := |cand.first|;
    if n == 1 {
      assert Long(cand.first[1..], c.bytes) == [];
    } else {
      assert cand.first[1..][1..] == [] && cand.first[1..][0] == cand.first[1];
      assert Long(cand.first[1..][1..], c.bytes) == [];
    }
  }

  lemma LastExact(c: Config, data: seq<Byte>, v: View, lim: nat, cand: Candidates)
    requires GoodFirst(c, data, v, lim, cand) && cand.first != []
    ensures var m := cand.first[|cand.first| - 1];
            var x := v.cur - 1 - m.dist;
            && 0 <= x < v.cur && Reaches(v, x) && m.len == Len(data, x, v.cur, lim) == cand.maxLen
            && NoneNearer(data, v, lim, x, c.bytes)
  {
    hide Len, NoneNearer;
    assert Exact(data, v, lim, cand.first[|cand.first| - 1]);
  }

  /** Head matches and a longer tail together. */
  lemma JoinTail(c: Config, data: seq<Byte>, v: View, lim: nat, cand: Candidates, tail: seq<Match>)
    requires c.Ok() && GoodFirst(c, data, v, lim, cand)
    requires Increasing(tail, Threshold(c, cand.maxLen), 0) && AllExact(data, v, lim, tail)
    ensures AllExact(data, v, lim, cand.first + tail) && Increasing(cand.first + tail, 1, 0)
    ensures Long(cand.first + tail, c.bytes) == if cand.first == [] then tail else Long(cand.first, c.bytes) + tail
  {
    LongTail(c, cand.maxLen, cand.first, tail);
    JoinIncreases(c, data, v, lim, cand, tail);
    hide GoodFirst, Long, Increasing, Exact;
    assert AllExact(data, v, lim, cand.first) by { FirstExact(c, data, v, lim, cand); }
  }

  lemma FirstExact(c: Config, data: seq<Byte>, v: View, lim: nat, cand: Candidates)
    requires GoodFirst(c, data, v, lim, cand)
    ensures AllExact(data, v, lim, cand.first)
  {
    hide Exact, Increasing, NoneNearer;
  }

  lemma LongTail(c: Config, maxLen: nat, first: seq<Match>, tail: seq<Match>)
    requires c.Ok() && Increasing(tail, Threshold(c, maxLen), 0)
    ensures Long(first + tail, c.bytes) == if first == [] then tail else Long(first, c.bytes) + tail
  {
    hide Long;
    LongAll(tail, c.bytes);
    LongJoin(first, tail, c.bytes);
    if first == [] {
      assert first + tail == tail;
    }
  }

  lemma JoinIncreases(c: Config, data: seq<Byte>, v: View, lim: nat, cand: Candidates, tail: seq<Match>)
    requires c.Ok() && GoodFirst(c, data, v, lim, cand)
    requires Increasing(tail, Threshold(c, cand.maxLen), 0) && AllExact(data, v, lim, tail)
    ensures Increasing(cand.first + tail, 1, 0)
  {
    hide Exact, GoodFirst;
    FirstIncreases(c, data, v, lim, cand);
    if cand.first == [] {
      assert cand.first + tail == tail;
    } else {
      forall k | 0 <= k < |tail| ensures cand.first[|cand.first| - 1].dist < tail[k].dist {
        TailFarther(c, data, v, lim, cand, tail[k]);
      }
      IncreasingJoin(cand.first, tail);
    }
  }

  lemma FirstIncreases(c: Config, data: seq<Byte>, v: View, lim: nat, cand: Candidates)
    requires GoodFirst(c, data, v, lim, cand)
    ensures Increasing(cand.first, 1, 0)
    ensures cand.first != [] ==> cand.first[|cand.first| - 1].len == cand.maxLen
  {
    hide Exact, NoneNearer, Increasing;
  }

  /** For any cutValue, GetMatches reports only true matches, of exactly the reported length, with
      strictly increasing lengths and distances. */
  lemma GetMatchesSound(c: Config, data: seq<Byte>, v: View, tb: Tables, lim: nat, trees: seq<Tree>)
    requires Sized(c, v, tb) && c.bytes <= lim && HeadsNewest(c, data, v, v.cur, tb)
    requires Buckets(c, data, v, v.cur, lim, tb.heads, tb.son, trees)
    ensures var found := GetMatches(c, data, v, tb, lim).found;
            AllExact(data, v, lim, found) && Increasing(found, 1, 0)
  {
    hide HeadMatches, SonAfter, SkipSon, EnterHeads, Buckets, HeadsNewest, Config.MainHash, Exact, GoodFirst,
         Increasing, Long;
    HeadMatchesGood(c, data, v, tb, lim);
    HeadMatchesBounded(c, data, v, tb, lim);
    var cand := HeadMatches(c, data, v, tb, lim);
    if cand.first != [] && cand.maxLen == lim {
      FirstExact(c, data, v, lim, cand);
      FirstIncreases(c, data, v, lim, cand);
      return;
    }
    var maxLen := Threshold(c, cand.maxLen);
    TailGood(c, data, v, lim, maxLen, tb.heads, tb.son, trees);
    var tail := SonAfter(c, data, v, tb.son, tb.heads[c.MainHash(data, v.cur)], lim, maxLen).found;
    JoinTail(c, data, v, lim, cand, tail);
  }

  /** The nearest string reaching `n` bytes is the first the naive search for `n` bytes reports. */
  lemma ScanLeads(data: seq<Byte>, v: View, lim: nat, x: nat, n: nat)
    requires n >= 1 && Reaches(v, x) && x < v.cur && Len(data, x, v.cur, lim) >= n && NoneNearer(data, v, lim, x, n)
    ensures var len := Len(data, x, v.cur, lim);
            Scan(data, WindowSet(v), v.cur, v.cur, lim, n - 1) ==
              [Match(len, v.cur - x - 1)] + Scan(data, WindowSet(v), v.cur, v.cur, lim, len)
  {
    hide Len, Scan;
    var s, len := WindowSet(v), Len(data, x, v.cur, lim);
    ScanStartsLower(data, s, v.cur, x + 1, v.cur, lim, n - 1);
    ScanUnfolds(data, s, x + 1, v.cur, lim, n - 1);
    ScanStartsLower(data, s, v.cur, x, v.cur, lim, len);
  }

  /** The head matches long enough for the main hash begin the naive answer. */
  lemma HeadsLead(c: Config, data: seq<Byte>, v: View, lim: nat, cand: Candidates)
    requires c.Ok() && GoodFirst(c, data, v, lim, cand) && cand.first != []
    ensures Long(cand.first, c.bytes) + Scan(data, WindowSet(v), v.cur, v.cur, lim, Threshold(c, cand.maxLen))
            == Scan(data, WindowSet(v), v.cur, v.cur, lim, c.bytes - 1)
  {
    hide GoodFirst, Long, Scan, Len, NoneNearer, WindowSet, Reaches;
    LongFirst(c, data, v, lim, cand);
    LastExact(c, data, v, lim, cand);
    var rest := Scan(data, WindowSet(v), v.cur, v.cur, lim, Threshold(c, cand.maxLen));
    if cand.maxLen >= c.bytes {
      ScanLeads(data, v, lim, v.cur - 1 - cand.first[|cand.first| - 1].dist, c.bytes);
    } else {
      assert [] + rest == rest;
    }
  }

  /** When the current bucket has lost no string and its search is not cut short, the reported matches
      long enough for the main hash are exactly the answer of comparing with every earlier position of the window. */
  lemma GetMatchesIsNaive(c: Config, data: seq<Byte>, v: View, tb: Tables, lim: nat, trees: seq<Tree>)
    requires Sized(c, v, tb) && c.bytes <= lim && HeadsNewest(c, data, v, v.cur, tb)
    requires Buckets(c, data, v, v.cur, lim, tb.heads, tb.son, trees)
    requires Unlost(c, data, v, lim, trees)
    ensures Long(GetMatches(c, data, v, tb, lim).found, c.bytes) ==
            Scan(data, WindowSet(v), v.cur, v.cur, lim, c.bytes - 1)
  {
    hide HeadMatches, SonAfter, SkipSon, EnterHeads, Buckets, HeadsNewest, Unlost, Config.MainHash, GoodFirst, Scan,
         Long,
         Increasing, AllExact, WindowSet;
    HeadMatchesGood(c, data, v, tb, lim);
    HeadMatchesBounded(c, data, v, tb, lim);
    var cand := HeadMatches(c, data, v, tb, lim);
    if cand.first != [] {
      HeadsLead(c, data, v, lim, cand);
      if cand.maxLen == lim {
        ScanExhausted(data, WindowSet(v), v.cur, v.cur, lim, lim);
        assert Long(cand.first, c.bytes) + [] == Long(cand.first, c.bytes);
        return;
      }
    }
    var maxLen := Threshold(c, cand.maxLen);
    var tail := SonAfter(c, data, v, tb.son, tb.heads[c.MainHash(data, v.cur)], lim, maxLen).found;
    FoundIsNaive(c, data, v, lim, maxLen, tb.heads, tb.son, trees);
    TailGood(c, data, v, lim, maxLen, tb.heads, tb.son, trees);
    JoinTail(c, data, v, lim, cand, tail);
  }
}
