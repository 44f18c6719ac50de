/** When the matches shorter than the hashed length are complete too. */
module LzShort {
  import opened Words
  import opened LzTree
  import opened LzHash
  import opened LzWindow
  import opened LzBuckets
  import opened LzMatches
  import opened LzRun
  import opened LzIndex
  import opened LzHcRun

  /** The string at `x` is the nearest from `lo` on that agrees with the one at `k` on `n` bytes. */
  ghost predicate FirstReaching(data: seq<Byte>, x: int, k: nat, lo: int, lim: nat, n: nat) {
    && 0 <= x < k && lo <= x && Len(data, x, k, lim) >= n
    && forall y: nat :: x < y < k ==> Len(data, y, k, lim) < n
  }

  function Newest2(c: Config, data: seq<Byte>, k: nat, lo: int): int {
    Nearest(Hash2(c, data), H2At(c, data, k), k, lo)
  }

  function Newest3(c: Config, data: seq<Byte>, k: nat, lo: int): int {
    Nearest(Hash3(c, data), H3At(c, data, k), k, lo)
  }

  /** No 2-byte match is hidden: if the nearest one has just 2 bytes, no newer string collides with it
      in the 2-byte table. */
  ghost predicate Shown2(c: Config, data: seq<Byte>, k: nat, lo: int, lim: nat) {
    forall x: nat :: FirstReaching(data, x, k, lo, lim, 2) && Len(data, x, k, lim) == 2 ==> Newest2(c, data, k, lo) == x
  }

  /** The same for 3 bytes, where the 2-byte table may show the match as well. */
  ghost predicate Shown3(c: Config, data: seq<Byte>, k: nat, lo: int, lim: nat) {
    forall x: nat :: FirstReaching(data, x, k, lo, lim, 3) && Len(data, x, k, lim) == 3 ==>
      Newest2(c, data, k, lo) == x || Newest3(c, data, k, lo) == x
  }

  ghost predicate Shown(p: Params, c: Config, data: seq<Byte>, k: nat)
    requires p.Ok() && k <= |data|
  {
    var lo, lim := k + 1 - p.cyclicSize, LimitAt(p, data, k);
    (c.bytes >= 3 ==> Shown2(c, data, k, lo, lim)) && (c.bytes == 4 ==> Shown3(c, data, k, lo, lim))
  }

  // ---- The heads ----

  /** The newest string with the same 2-byte hash is the nearest 2-byte match, or starts differently. */
  lemma Newest2Is(c: Config, data: seq<Byte>, k: nat, lo: int, lim: nat)
    requires 2 <= lim
    ensures var x2 := Newest2(c, data, k, lo);
            && (SameFirst(data, x2, k) ==> FirstReaching(data, x2, k, lo, lim, 2))
            && forall x: nat :: FirstReaching(data, x, k, lo, lim, 2) ==> x <= x2
  {
    hide H2, Lcp, Len, Nearest;
    var x2, slot := Newest2(c, data, k, lo), H2At(c, data, k);
    forall y: nat | y < k && lo <= y ensures Len(data, y, k, lim) >= 2 ==> y <= x2 {
      TwoBytes(data, y, k, lim);
      assert Len(data, y, k, lim) >= 2 ==> Hash2(c, data)(y) == slot;
    }
    if SameFirst(data, x2, k) {
      assert Hash2(c, data)(x2) == slot;
      H2Genuine(c.crc, At(data, x2, 0), At(data, x2, 1), At(data, k, 0), At(data, k, 1));
      TwoBytes(data, x2, k, lim);
    }
  }

  lemma Newest3Is(c: Config, data: seq<Byte>, k: nat, lo: int, lim: nat)
    requires 3 <= lim
    ensures var x3 := Newest3(c, data, k, lo);
            && (SameFirst(data, x3, k) ==> FirstReaching(data, x3, k, lo, lim, 3))
            && forall x: nat :: FirstReaching(data, x, k, lo, lim, 3) ==> x <= x3
  {
    hide H3, Lcp, Len, Nearest;
    var x3, slot := Newest3(c, data, k, lo), H3At(c, data, k);
    forall y: nat | y < k && lo <= y ensures Len(data, y, k, lim) >= 3 ==> y <= x3 {
      ThreeBytes(data, y, k, lim);
      assert Len(data, y, k, lim) >= 3 ==> Hash3(c, data)(y) == slot;
    }
    if SameFirst(data, x3, k) {
      assert Hash3(c, data)(x3) == slot;
      H3Genuine(c.crc, At(data, x3, 0), At(data, x3, 1), At(data, x3, 2), At(data, k, 0), At(data, k, 1),
                At(data, k, 2));
      ThreeBytes(data, x3, k, lim);
    }
  }

  lemma SameStart(data: seq<Byte>, x: int, k: nat, lim: nat)
    requires 0 <= x && Len(data, x, k, lim) >= 1
    ensures SameFirst(data, x, k)
  {
  }

  /** The head matches shorter than the hashed length are exactly the nearest matches of their length
      that a table shows. */
  lemma HeadHas(c: Config, data: seq<Byte>, k: nat, lo: int, lim: nat, n: nat, x: nat)
    requires c.Ok() && 2 <= n < c.bytes <= lim
    ensures Match(n, k - x - 1) in IndexHeads(c, data, k, lo, lim).first <==>
            && FirstReaching(data, x, k, lo, lim, n) && Len(data, x, k, lim) == n
            && (Newest2(c, data, k, lo) == x || (n == 3 && Newest3(c, data, k, lo) == x))
  {
    hide Nearest, Len, Hash2, Hash3, H2At, H3At;
    var x2 := Newest2(c, data, k, lo);
    Newest2Is(c, data, k, lo, lim);
    if x2 >= 0 {
      Partly(data, x2, k, 2, lim);
    }
    if Len(data, x, k, lim) >= 1 {
      SameStart(data, x, k, lim);
    }
    if c.bytes == 4 {
      var x3 := Newest3(c, data, k, lo);
      Newest3Is(c, data, k, lo, lim);
      if x3 >= 0 {
        Partly(data, x3, k, 3, lim);
      }
    }
  }

  /** Comparing from byte `n` on is comparing, when the bytes before agree. */
  lemma Partly(data: seq<Byte>, x: int, k: nat, n: nat, lim: nat)
    requires n <= lim
    ensures Len(data, x, k, lim) >= n ==> Lcp(data, x, k, n, lim) == Len(data, x, k, lim)
  {
    hide Lcp;
    if Len(data, x, k, lim) >= n {
      LenIs(data, x, k, lim, Lcp(data, x, k, n, lim));
    }
  }

  // ---- Strictly increasing lists ----

  lemma {:induction false} LongHas(found: seq<Match>, n: nat, m: Match)
    ensures m in Long(found, n) <==> m in found && m.len >= n
  {
    hide Long;
    if found == [] {
      LongUnfolds(m, [], n);
    } else {
      LongHas(found[1..], n, m);
      assert found == [found[0]] + found[1..];
      LongUnfolds(found[0], found[1..], n);
    }
  }

  /** A strictly increasing list is determined by its elements. */
  lemma {:induction false} SameIncreasing(a: seq<Match>, b: seq<Match>, minLen: int, minDist: int)
    requires Increasing(a, minLen, minDist) && Increasing(b, minLen, minDist)
    requires forall m :: m in a <==> m in b
    ensures a == b
  {
    hide Increasing;
    BothEmpty(a, b);
    if a != [] {
      FirstIsLeast(a, b, minLen, minDist);
      FirstIsLeast(b, a, minLen, minDist);
      SameTails(a, b, minLen, minDist);
      TailIncreases(a, minLen, minDist);
      TailIncreases(b, minLen, minDist);
      SameIncreasing(a[1..], b[1..], minLen, minDist);
      assert a == [a[0]] + a[1..] && b == [b[0]] + b[1..];
    }
  }

  lemma SameTails(a: seq<Match>, b: seq<Match>, minLen: int, minDist: int)
    requires Increasing(a, minLen, minDist) && Increasing(b, minLen, minDist)
    requires a != [] && b != [] && a[0] == b[0] && forall m :: m in a <==> m in b
    ensures forall m :: m in a[1..] <==> m in b[1..]
  {
    hide Increasing;
    forall m | m in a[1..] ensures m in b[1..] {
      InTail(a, b, m, minLen, minDist);
    }
    forall m | m in b[1..] ensures m in a[1..] {
      InTail(b, a, m, minLen, minDist);
    }
  }

  lemma BothEmpty(a: seq<Match>, b: seq<Match>)
    requires forall m :: m in a <==> m in b
    ensures a == [] <==> b == []
  {
    if a != [] {
      assert a[0] in a;
    }
    if b != [] {
      assert b[0] in b;
    }
  }

  lemma TailIncreases(a: seq<Match>, minLen: int, minDist: int)
    requires Increasing(a, minLen, minDist) && a != []
    ensures Increasing(a[1..], minLen, minDist)
  {
  }

  lemma FirstIsLeast(a: seq<Match>, b: seq<Match>, minLen: int, minDist: int)
    requires Increasing(a, minLen, minDist) && Increasing(b, minLen, minDist) && a != [] && b != []
    requires forall m :: m in a <==> m in b
    ensures a[0].len <= b[0].len && (a[0].len == b[0].len ==> a[0] == b[0])
  {
    assert b[0] in a;
    var i :| 0 <= i < |a| && a[i] == b[0];
  }

  lemma InTail(a: seq<Match>, b: seq<Match>, m: Match, minLen: int, minDist: int)
    requires Increasing(a, minLen, minDist) && a != [] && b != [] && a[0] == b[0]
    requires forall e :: e in a ==> e in b
    requires m in a[1..]
    ensures m in b[1..]
  {
    var i :| 0 <= i < |a[1..]| && a[1..][i] == m;
    assert a[i + 1] == m && a[0].len < a[i + 1].len;
    assert m in b;
    var j :| 0 <= j < |b| && b[j] == m;
    assert b[1..][j - 1] == m;
  }

  /** Raising the threshold keeps the longer matches. */
  lemma {:induction false} ScanLong(data: seq<Byte>, s: set<nat>, i: nat, k: nat, lim: nat, maxLen: nat, n: nat)
    requires i <= k && maxLen < n
    ensures Long(Scan(data, s, i, k, lim, maxLen), n) == Scan(data, s, i, k, lim, n - 1)
  {
    hide Scan, Long, Len, Increasing;
    var a, b := Long(Scan(data, s, i, k, lim, maxLen), n), Scan(data, s, i, k, lim, n - 1);
    ScanIncreases(data, s, i, k, lim, maxLen);
    ScanIncreases(data, s, i, k, lim, n - 1);
    LongIncreases(Scan(data, s, i, k, lim, maxLen), n, maxLen, k - i);
    forall m ensures m in a <==> m in b {
      LongHas(Scan(data, s, i, k, lim, maxLen), n, m);
      ScanReports(data, s, i, k, lim, maxLen, m);
      ScanReports(data, s, i, k, lim, n - 1, m);
    }
    SameIncreasing(a, b, n - 1, k - i);
  }

  lemma {:induction false} LongIncreases(found: seq<Match>, n: nat, minLen: nat, minDist: int)
    requires Increasing(found, minLen, minDist) && minLen < n
    ensures Increasing(Long(found, n), n - 1, minDist)
    decreases |found|
  {
    if found != [] {
      var m, rest := found[0], found[1..];
      assert Increasing(rest, m.len, m.dist + 1);
      assert found == [m] + rest;
      if m.len >= n {
        LongAll(found, n);
      } else {
        LongIncreases(rest, n, minLen, minDist);
      }
    }
  }

  // ---- The exact condition ----

  /** A report that is complete from the hashed length on is complete altogether if and only if no
      short match is hidden by a newer string with the same hash. */
  lemma ShortExactly(p: Params, c: Config, data: seq<Byte>, k: nat, tail: seq<Match>)
    requires p.Ok() && c.Ok() && k < |data| && c.bytes <= LimitAt(p, data, k)
    requires forall m :: m in tail ==> m.len >= c.bytes
    requires var found := IndexHeads(c, data, k, k + 1 - p.cyclicSize, LimitAt(p, data, k)).first + tail;
             Increasing(found, 1, 0) && CompleteReport(p, c, data, k, found)
    ensures var found := IndexHeads(c, data, k, k + 1 - p.cyclicSize, LimitAt(p, data, k)).first + tail;
            found == Scan(data, WindowSet(WindowAt(p, k)), k, k, LimitAt(p, data, k), 1) <==> Shown(p, c, data, k)
  {
    hide Scan, Long, Len, Increasing, IndexHeads, Shown;
    var lo, lim, s := k + 1 - p.cyclicSize, LimitAt(p, data, k), WindowSet(WindowAt(p, k));
    var found, scan := IndexHeads(c, data, k, lo, lim).first + tail, Scan(data, s, k, k, lim, 1);
    ScanIncreases(data, s, k, k, lim, 1);
    LongWhole(c, data, s, k, lim);
    if Shown(p, c, data, k) {
      forall m: Match ensures m in found <==> m in scan {
        if m.len >= c.bytes {
          LongHas(found, c.bytes, m);
          LongHas(scan, c.bytes, m);
        } else {
          ShortIfShown(p, c, data, k, tail, m);
        }
      }
      SameIncreasing(found, scan, 1, 0);
    }
    if found == scan {
      ShownIfFound(p, c, data, k, tail);
    }
  }

  lemma ShortIfShown(p: Params, c: Config, data: seq<Byte>, k: nat, tail: seq<Match>, m: Match)
    requires p.Ok() && c.Ok() && k < |data| && c.bytes <= LimitAt(p, data, k) && m.len < c.bytes
    requires forall e :: e in tail ==> e.len >= c.bytes
    requires Shown(p, c, data, k)
    ensures m in IndexHeads(c, data, k, k + 1 - p.cyclicSize, LimitAt(p, data, k)).first + tail
            <==> m in Scan(data, WindowSet(WindowAt(p, k)), k, k, LimitAt(p, data, k), 1)
  {
    hide Scan, Len, IndexHeads, Nearest;
    var lo, lim := k + 1 - p.cyclicSize, LimitAt(p, data, k);
    var x := k - 1 - m.dist;
    ShortMembers(p, c, data, k, tail, m);
    if m in IndexHeads(c, data, k, lo, lim).first {
      HeadsInRange(c, data, k, lo, lim, m);
    }
    if m in Scan(data, WindowSet(WindowAt(p, k)), k, k, lim, 1) {
      assert FirstReaching(data, x, k, lo, lim, m.len) && Len(data, x, k, lim) == m.len;
    }
  }

  lemma HeadsInRange(c: Config, data: seq<Byte>, k: nat, lo: int, lim: nat, m: Match)
    requires c.Ok() && c.bytes <= lim && m in IndexHeads(c, data, k, lo, lim).first
    ensures m.len >= 2 && 0 <= k - 1 - m.dist < k
  {
    hide Lcp, Hash2, Hash3, H2At, H3At;
  }

  lemma ShownIfFound(p: Params, c: Config, data: seq<Byte>, k: nat, tail: seq<Match>)
    requires p.Ok() && c.Ok() && k < |data| && c.bytes <= LimitAt(p, data, k)
    requires forall e :: e in tail ==> e.len >= c.bytes
    requires IndexHeads(c, data, k, k + 1 - p.cyclicSize, LimitAt(p, data, k)).first + tail
             == Scan(data, WindowSet(WindowAt(p, k)), k, k, LimitAt(p, data, k), 1)
    ensures Shown(p, c, data, k)
  {
    hide Scan, Len, IndexHeads, Newest2, Newest3, FirstReaching, WindowSet;
    var lo, lim := k + 1 - p.cyclicSize, LimitAt(p, data, k);
    if c.bytes >= 3 {
      forall x: nat | FirstReaching(data, x, k, lo, lim, 2) && Len(data, x, k, lim) == 2
        ensures Newest2(c, data, k, lo) == x
      {
        FoundIsShown(p, c, data, k, tail, 2, x);
      }
    }
    if c.bytes == 4 {
      forall x: nat | FirstReaching(data, x, k, lo, lim, 3) && Len(data, x, k, lim) == 3
        ensures Newest2(c, data, k, lo) == x || Newest3(c, data, k, lo) == x
      {
        FoundIsShown(p, c, data, k, tail, 3, x);
      }
    }
  }

  lemma FoundIsShown(p: Params, c: Config, data: seq<Byte>, k: nat, tail: seq<Match>, n: nat, x: nat)
    requires p.Ok() && c.Ok() && k < |data| && c.bytes <= LimitAt(p, data, k) && 2 <= n < c.bytes
    requires forall e :: e in tail ==> e.len >= c.bytes
    requires IndexHeads(c, data, k, k + 1 - p.cyclicSize, LimitAt(p, data, k)).first + tail
             == Scan(data, WindowSet(WindowAt(p, k)), k, k, LimitAt(p, data, k), 1)
    requires FirstReaching(data, x, k, k + 1 - p.cyclicSize, LimitAt(p, data, k), n)
             && Len(data, x, k, LimitAt(p, data, k)) == n
    ensures Newest2(c, data, k, k + 1 - p.cyclicSize) == x || (n == 3 && Newest3(c, data, k, k + 1 - p.cyclicSize) == x)
  {
    hide Scan, Len, IndexHeads, Newest2, Newest3, WindowSet;
    ShortMembers(p, c, data, k, tail, Match(n, k - 1 - x));
  }

  lemma LongWhole(c: Config, data: seq<Byte>, s: set<nat>, k: nat, lim: nat)
    requires c.Ok()
    ensures Long(Scan(data, s, k, k, lim, 1), c.bytes) == Scan(data, s, k, k, lim, c.bytes - 1)
  {
    hide Scan, Long;
    if c.bytes == 2 {
      var scan := Scan(data, s, k, k, lim, 1);
      ScanIncreases(data, s, k, k, lim, 1);
      LongAll(scan, 2);
    } else {
      ScanLong(data, s, k, k, lim, 1, c.bytes);
    }
  }

  /** A short element of the naive answer is a nearest match, and a short element of the report a
      nearest match that a table shows. */
  lemma ShortMembers(p: Params, c: Config, data: seq<Byte>, k: nat, tail: seq<Match>, m: Match)
    requires p.Ok() && c.Ok() && k < |data| && c.bytes <= LimitAt(p, data, k) && m.len < c.bytes
    requires forall e :: e in tail ==> e.len >= c.bytes
    ensures var lo, lim := k + 1 - p.cyclicSize, LimitAt(p, data, k);
            var found := IndexHeads(c, data, k, lo, lim).first + tail;
            var scan := Scan(data, WindowSet(WindowAt(p, k)), k, k, lim, 1);
            var x := k - 1 - m.dist;
            && (m in scan <==> m.len >= 2 && FirstReaching(data, x, k, lo, lim, m.len) && Len(data, x, k, lim) == m.len)
            && (m.len >= 2 && 0 <= x < k ==>
                  (m in found <==>
                     && m in scan
                     && (Newest2(c, data, k, lo) == x || (m.len == 3 && Newest3(c, data, k, lo) == x))))
  {
    hide Scan, Len, IndexHeads, Nearest;
    var lo, lim, s := k + 1 - p.cyclicSize, LimitAt(p, data, k), WindowSet(WindowAt(p, k));
    var x := k - 1 - m.dist;
    ScanReports(data, s, k, k, lim, 1, m);
    if m.len >= 2 && 0 <= x {
      HeadHas(c, data, k, lo, lim, m.len, x);
    }
  }

  // ---- For the finders ----

  /** With room in the bucket, a tree finder reports the whole naive answer if and only if no short
      match is hidden. */
  lemma TreesAllLengths(p: Params, c: Config, data: seq<Byte>, son: seq<UInt32>, k: nat)
    requires Setup(p, c, data, son) && k < |data| && c.bytes <= LimitAt(p, data, k) && AllRoomy(p, c, data, k)
    ensures IndexReport(p, c, data, k) == Scan(data, WindowSet(WindowAt(p, k)), k, k, LimitAt(p, data, k), 1)
            <==> Shown(p, c, data, k)
  {
    hide After, Report, IndexTrees, IndexHeads, Scan, Long, TreeMatches, Increasing, AllExact, AllRoomy, Shown;
    EveryPosition(p, c, data, son, k);
    RunIsIndex(p, c, data, son, k);
    var cand := IndexHeads(c, data, k, k + 1 - p.cyclicSize, LimitAt(p, data, k));
    if cand.first != [] && cand.maxLen == LimitAt(p, data, k) {
      assert cand.first + [] == cand.first;
      ShortExactly(p, c, data, k, []);
    } else {
      HeadsLeaveRoom(c, data, k, k + 1 - p.cyclicSize, LimitAt(p, data, k));
      TreeTailLong(p, c, data, k, Threshold(c, cand.maxLen));
      ShortExactly(p, c, data, k,
                   TreeMatches(c, data, k, LimitAt(p, data, k), Threshold(c, cand.maxLen), IndexTrees(p, c, data, k)));
    }
  }

  /** With few strings in the bucket, Hc4 reports the whole naive answer if and only if no short match
      is hidden. */
  lemma ChainsAllLengths(p: Params, c: Config, data: seq<Byte>, son: seq<UInt32>, k: nat)
    requires SetupHc(p, c, data, son) && k < |data| && c.bytes <= LimitAt(p, data, k) && FewMates(p, c, data, k)
    ensures IndexReportHc(p, c, data, k) == Scan(data, WindowSet(WindowAt(p, k)), k, k, LimitAt(p, data, k), 1)
            <==> Shown(p, c, data, k)
  {
    hide AfterHc, ReportHc, IndexHeads, Scan, Long, Increasing, AllExact, FewMates, Visible, Shown;
    EveryPositionHc(p, c, data, son, k);
    var lim := LimitAt(p, data, k);
    var cand := IndexHeads(c, data, k, k + 1 - p.cyclicSize, lim);
    if cand.first != [] && cand.maxLen == lim {
      assert cand.first + [] == cand.first;
      ShortExactly(p, c, data, k, []);
    } else {
      var tail := Scan(data, Visible(p, c, data, k), k, k, lim, Threshold(c, cand.maxLen));
      LongScan(data, Visible(p, c, data, k), k, lim, Threshold(c, cand.maxLen));
      ShortExactly(p, c, data, k, tail);
    }
  }

  lemma LongScan(data: seq<Byte>, s: set<nat>, k: nat, lim: nat, maxLen: nat)
    ensures forall m :: m in Scan(data, s, k, k, lim, maxLen) ==> m.len > maxLen
  {
    hide Scan;
    ScanIncreases(data, s, k, k, lim, maxLen);
  }

  lemma TreeTailLong(p: Params, c: Config, data: seq<Byte>, k: nat, maxLen: nat)
    requires p.Ok() && c.Ok() && p.size == |data| && k < |data| && c.bytes <= LimitAt(p, data, k)
    requires maxLen < LimitAt(p, data, k)
    ensures forall m :: m in TreeMatches(c, data, k, LimitAt(p, data, k), maxLen, IndexTrees(p, c, data, k)) ==>
              m.len > maxLen
  {
    hide IndexTrees, SearchTree, Scan, Ordered, OlderThan, Distinct, Config.MainHash, Near;
    var h, lim := c.MainHash(data, k), LimitAt(p, data, k);
    var t := IndexTrees(p, c, data, k)[h];
    TreesOk(p, c, data, k, h);
    NearAtStart(data, t, k, lim);
    FoundIsScan(data, t, k, k, lim, c.cutValue, 0, 0, maxLen);
    LongScan(data, Nodes(t), k, lim, maxLen);
  }
}
