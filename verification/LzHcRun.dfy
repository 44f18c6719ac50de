/** Whole runs of the hash-chain match finder. */
module LzHcRun {
  import opened Words
  import opened LzTree
  import opened LzSon
  import opened LzChain
  import opened LzHash
  import opened LzWindow
  import opened LzBuckets
  import opened LzMatches
  import opened LzRun
  import opened LzIndex
  import opened LzHc

  predicate MatchingHc(p: Params, c: Config, data: seq<Byte>, f: Finder) {
    && p.Ok() && p.size == |data| && f.window.cyclicPos < p.cyclicSize && p.cyclicSize <= f.window.pos
    && SizedHc(c, ViewOf(p, f.window), f.tables)
  }

  function EnteredHc(p: Params, c: Config, data: seq<Byte>, f: Finder): Tables
    requires MatchingHc(p, c, data, f)
  {
    if f.window.lenLimit < 4 then f.tables
    else SkipHc(c, data, ViewOf(p, f.window), f.tables, f.window.lenLimit)
  }

  /** One position on, by GetMatches or Skip. */
  function NextHc(p: Params, c: Config, data: seq<Byte>, f: Finder): Finder
    requires MatchingHc(p, c, data, f)
  {
    Finder(MovePos(p, f.window), RenumberTables(MoveShift(p, f.window), EnteredHc(p, c, data, f)))
  }

  /** What Hc4_MatchFinder_GetMatches reports. */
  function ReportHc(p: Params, c: Config, data: seq<Byte>, f: Finder): seq<Match>
    requires MatchingHc(p, c, data, f) && c.cutValue < 0x1_0000_0000
  {
    if f.window.lenLimit < 4 then []
    else GetMatchesHc(c, c.cutValue, data, ViewOf(p, f.window), f.tables, f.window.lenLimit).found
  }

  ghost predicate IndexedHc(c: Config, data: seq<Byte>, v: View, b: nat, tb: Tables, chains: seq<seq<nat>>)
    requires SizedHc(c, v, tb)
  {
    HeadsNewest(c, data, v, b, tb) && Chains(c, data, v, b, tb.heads, tb.son, chains)
  }

  ghost predicate HcInv(p: Params, c: Config, data: seq<Byte>, f: Finder, chains: seq<seq<nat>>) {
    && Inv(p, f.window) && MatchingHc(p, c, data, f)
    && (f.window.lenLimit >= 4 ==> IndexedHc(c, data, ViewOf(p, f.window), f.window.cur, f.tables, chains))
  }

  // ---- Every step keeps the invariant ----

  function ChainsAfter(c: Config, data: seq<Byte>, v: View, chains: seq<seq<nat>>): seq<seq<nat>>
    requires c.Ok() && |chains| == c.buckets
  {
    var h0 := c.MainHash(data, v.cur);
    chains[h0 := [v.cur] + chains[h0]]
  }

  function PruneChains(chains: seq<seq<nat>>, lo: int): (r: seq<seq<nat>>)
    ensures |r| == |chains| && forall h :: 0 <= h < |chains| ==> r[h] == PruneChain(chains[h], lo)
  {
    seq(|chains|, h requires 0 <= h < |chains| => PruneChain(chains[h], lo))
  }

  lemma SkipHcIndexes(c: Config, data: seq<Byte>, v: View, lim: nat, tb: Tables, chains: seq<seq<nat>>)
    requires SizedHc(c, v, tb) && 4 <= lim && |chains| == c.buckets
    requires IndexedHc(c, data, v, v.cur, tb, chains)
    ensures IndexedHc(c, data, v, v.cur + 1, SkipHc(c, data, v, tb, lim), ChainsAfter(c, data, v, chains))
  {
    hide Newest, ChainOk, Config.MainHash, H2At, H3At;
    NewestEnter(data, v, Hash2(c, data), tb.head2);
    NewestEnter(data, v, Hash3(c, data), tb.head3);
    ChainsInsert(c, data, v, tb.heads, tb.son, chains);
  }

  lemma IndexedHcMovesOn(c: Config, data: seq<Byte>, v: View, b: nat, tb: Tables, chains: seq<seq<nat>>)
    requires SizedHc(c, v, tb) && v.pos < MAX_VAL_FOR_NORMALIZE && b <= v.cur + 1
    requires IndexedHc(c, data, v, b, tb, chains)
    ensures SizedHc(c, NextView(v), tb)
    ensures IndexedHc(c, data, NextView(v), b, tb, PruneChains(chains, v.cur + 2 - v.cyclicSize))
  {
    hide Newest, RepChain, Descending, PruneChain, Elements, Config.MainHash;
    var lo := v.cur + 2 - v.cyclicSize;
    NextViewKeeps(v);
    NextFields(v);
    NewestMovesOn(data, v, b, Hash2(c, data), tb.head2);
    NewestMovesOn(data, v, b, Hash3(c, data), tb.head3);
    forall h | 0 <= h < c.buckets
      ensures ChainOk(c, data, NextView(v), b, h, tb.heads[h], tb.son, PruneChain(chains[h], lo))
    {
      assert ChainOk(c, data, v, b, h, tb.heads[h], tb.son, chains[h]);
      NextRepChain(v, tb.son, tb.heads[h], chains[h], b);
      PruneChainElements(chains[h], b, lo);
    }
  }

  lemma IndexedHcRenumbered(c: Config, data: seq<Byte>, v: View, b: nat, sub: UInt32, tb: Tables, chains: seq<seq<nat>>)
    requires SizedHc(c, v, tb) && sub <= v.pos - v.cyclicSize
    requires IndexedHc(c, data, v, b, tb, chains)
    ensures SizedHc(c, v.(pos := v.pos - sub), RenumberTables(sub, tb))
    ensures IndexedHc(c, data, v.(pos := v.pos - sub), b, RenumberTables(sub, tb), chains)
  {
    hide Newest, Renumber, RepChain, Descending, Elements, Config.MainHash;
    var v' := v.(pos := v.pos - sub);
    NewestRenumbered(data, v, b, Hash2(c, data), sub, tb.head2);
    NewestRenumbered(data, v, b, Hash3(c, data), sub, tb.head3);
    forall h | 0 <= h < c.buckets
      ensures ChainOk(c, data, v', b, h, RenumberAll(sub, tb.heads)[h], RenumberAll(sub, tb.son), chains[h])
    {
      assert ChainOk(c, data, v, b, h, tb.heads[h], tb.son, chains[h]);
      RenumberKeepsChain(v, sub, tb.son, tb.heads[h], chains[h]);
    }
  }

  function ChainsNext(p: Params, c: Config, data: seq<Byte>, f: Finder, chains: seq<seq<nat>>): seq<seq<nat>>
    requires MatchingHc(p, c, data, f)
  {
    PruneChains(if f.window.lenLimit < 4 || |chains| != c.buckets then chains
                else ChainsAfter(c, data, ViewOf(p, f.window), chains),
                f.window.cur + 2 - p.cyclicSize)
  }

  lemma NextHcMatches(p: Params, c: Config, data: seq<Byte>, f: Finder)
    requires MatchingHc(p, c, data, f) && Inv(p, f.window) && f.window.Available() > 0
    ensures MatchingHc(p, c, data, NextHc(p, c, data, f)) && Inv(p, NextHc(p, c, data, f).window)
    ensures NextHc(p, c, data, f).window.cur == f.window.cur + 1
  {
    hide MovePos, MoveShift, SkipHc, Inv, Renumber;
    MovePosInv(p, f.window);
    InvView(p, MovePos(p, f.window));
  }

  lemma NextHcKeepsInv(p: Params, c: Config, data: seq<Byte>, f: Finder, chains: seq<seq<nat>>)
    requires HcInv(p, c, data, f, chains) && f.window.Available() > 0
    ensures HcInv(p, c, data, NextHc(p, c, data, f), ChainsNext(p, c, data, f, chains))
    ensures NextHc(p, c, data, f).window.cur == f.window.cur + 1
  {
    hide IndexedHc, MovePos, MoveShift, SkipHc, NextView, Inv, PruneChains, RenumberTables, ChainsAfter;
    NextHcMatches(p, c, data, f);
    var f' := NextHc(p, c, data, f);
    if f'.window.lenLimit >= 4 {
      var w, v := f.window, ViewOf(p, f.window);
      InvView(p, w);
      MoveView(p, w);
      NextViewKeeps(v);
      LenLimitFalls(p, w, f'.window);
      var tb := SkipHc(c, data, v, f.tables, w.lenLimit);
      IndexedHcSizes(c, data, v, w.cur, f.tables, chains);
      var chains' := ChainsAfter(c, data, v, chains);
      SkipHcIndexes(c, data, v, w.lenLimit, f.tables, chains);
      IndexedHcMovesOn(c, data, v, w.cur + 1, tb, chains');
      NextFields(v);
      IndexedHcRenumbered(c, data, NextView(v), w.cur + 1, MoveShift(p, w), tb,
                          PruneChains(chains', v.cur + 2 - v.cyclicSize));
    }
  }

  lemma IndexedHcSizes(c: Config, data: seq<Byte>, v: View, b: nat, tb: Tables, chains: seq<seq<nat>>)
    requires SizedHc(c, v, tb) && IndexedHc(c, data, v, b, tb, chains)
    ensures |chains| == c.buckets
  {
  }

  // ---- From the start ----

  function NoChains(n: nat): (r: seq<seq<nat>>)
    ensures |r| == n && forall i :: 0 <= i < n ==> r[i] == []
  {
    seq(n, _ => [])
  }

  lemma StartHcInv(p: Params, c: Config, data: seq<Byte>, son: seq<UInt32>)
    requires p.Ok() && c.Ok() && c.bytes == 4 && p.size == |data| && |son| == p.cyclicSize
    ensures HcInv(p, c, data, Start(p, c, son), NoChains(c.buckets))
  {
    hide Init, Inv, Newest;
    InitInv(p);
    InvView(p, Init(p));
    StartsAtZero(p);
    var v := ViewOf(p, Init(p));
    EmptyNewest(data, v, Hash2(c, data), HASH2_SIZE);
    EmptyNewest(data, v, Hash3(c, data), HASH3_SIZE);
  }

  // ---- What is reported ----

  /** A chain lists the strings of its bucket in the window, newest first, and nothing else. */
  lemma {:induction false} ChainIsMates(c: Config, data: seq<Byte>, chain: seq<nat>, b: nat, lo: int, h: nat)
    requires c.Ok() && Descending(chain, b)
    requires forall x: nat :: x in Elements(chain) <==> lo <= x < b && c.MainHash(data, x) == h
    ensures chain == Mates(c, data, b, lo, h)
    decreases b
  {
    hide Config.MainHash;
    ElementsBelow(chain, b);
    FirstIn(chain);
    if b == 0 || b - 1 < lo {
      assert chain == [];
    } else if c.MainHash(data, b - 1) == h {
      assert b - 1 in Elements(chain);
      ElementsBelow(chain[1..], chain[0]);
      ChainIsMates(c, data, chain[1..], b - 1, lo, h);
    } else {
      ChainIsMates(c, data, chain, b - 1, lo, h);
    }
  }

  lemma FirstIn(chain: seq<nat>)
    ensures chain != [] ==> chain[0] in Elements(chain)
  {
  }

  /** The candidates Hc4 visits at `k`: the newest strings of the bucket, as many as cutValue allows. */
  function Visible(p: Params, c: Config, data: seq<Byte>, k: nat): set<nat>
    requires c.Ok() && c.cutValue < 0x1_0000_0000
  {
    Elements(Visited(Mates(c, data, k, k + 1 - p.cyclicSize, c.MainHash(data, k)), Visits(c.cutValue)))
  }

  /** What Hc4 reports at `k`, from the input alone: the short matches, and the naive search over the
      visible candidates. */
  function IndexReportHc(p: Params, c: Config, data: seq<Byte>, k: nat): seq<Match>
    requires p.Ok() && c.Ok() && k < |data| && c.cutValue < 0x1_0000_0000
  {
    var lim := LimitAt(p, data, k);
    if lim < 4 || c.bytes != 4 then []
    else
      var cand := IndexHeads(c, data, k, k + 1 - p.cyclicSize, lim);
      if cand.first != [] && cand.maxLen == lim then cand.first
      else cand.first + Scan(data, Visible(p, c, data, k), k, k, lim, Threshold(c, cand.maxLen))
  }

  /** The chain part is the naive search over the visible candidates. */
  lemma ChainTail(p: Params, c: Config, data: seq<Byte>, v: View, lim: nat, maxLen: nat, ref: UInt32, son: seq<UInt32>,
                  chain: seq<nat>)
    requires c.Ok() && v.Valid() && |son| == v.cyclicSize == p.cyclicSize && maxLen < lim && c.cutValue < 0x1_0000_0000
    requires ChainOk(c, data, v, v.cur, c.MainHash(data, v.cur), ref, son, chain)
    ensures FastChain(data, v, son[v.cyclicPos := ref], ref, c.cutValue, lim, maxLen)
            == Scan(data, Visible(p, c, data, v.cur), v.cur, v.cur, lim, maxLen)
  {
    hide Config.MainHash, RepChain, Descending, FastChain, SimpleChain, Scan, Elements, Visited, Mates;
    var son' := son[v.cyclicPos := ref];
    var n := Visits(c.cutValue);
    ChainWrite(son, ref, ref, chain, v.cur, v);
    FastIsSimple(data, v, son', ref, c.cutValue, lim, maxLen);
    ChainIsScan(data, v, son', ref, chain, v.cur, n, lim, maxLen);
    ChainIsMates(c, data, chain, v.cur, v.cur + 1 - v.cyclicSize, c.MainHash(data, v.cur));
  }

  /** Renumbering and moving on are invisible: whatever the numbers, the report is computed from the
      input alone, for any cutValue. */
  lemma ReportHcIsIndex(p: Params, c: Config, data: seq<Byte>, f: Finder, chains: seq<seq<nat>>)
    requires HcInv(p, c, data, f, chains) && c.Ok() && f.window.cur < |data| && c.cutValue < 0x1_0000_0000
    ensures ReportHc(p, c, data, f) == IndexReportHc(p, c, data, f.window.cur)
  {
    hide Inv, HeadsNewest, HeadMatches, IndexHeads, FastChain, ChainOk, Scan, Visible, EnterHeads, Config.MainHash;
    InputRemains(p, f.window);
    if f.window.lenLimit >= 4 {
      var v, tb, lim := ViewOf(p, f.window), f.tables, f.window.lenLimit;
      var h := c.MainHash(data, v.cur);
      HeadsAreNearest(c, data, v, tb, lim);
      HeadMatchesBounded(c, data, v, tb, lim);
      var cand := HeadMatches(c, data, v, tb, lim);
      if !(cand.first != [] && cand.maxLen == lim) {
        ChainTail(p, c, data, v, lim, Threshold(c, cand.maxLen), tb.heads[h], tb.son, chains[h]);
      }
    }
  }

  /** Two finders at the same position report the same, whatever their position numbers. */
  lemma NumberingInvisibleHc(p: Params, c: Config, data: seq<Byte>, f1: Finder, chains1: seq<seq<nat>>, f2: Finder,
                             chains2: seq<seq<nat>>)
    requires HcInv(p, c, data, f1, chains1) && HcInv(p, c, data, f2, chains2)
    requires c.Ok() && c.cutValue < 0x1_0000_0000 && f1.window.cur == f2.window.cur < |data|
    ensures ReportHc(p, c, data, f1) == ReportHc(p, c, data, f2)
  {
    hide HcInv, ReportHc, IndexReportHc;
    ReportHcIsIndex(p, c, data, f1, chains1);
    ReportHcIsIndex(p, c, data, f2, chains2);
  }

  lemma VisitedWithin(chain: seq<nat>, n: nat)
    ensures Elements(Visited(chain, n)) <= Elements(chain)
    ensures |chain| <= n ==> Visited(chain, n) == chain
  {
    ElementsPrefix(chain, |Visited(chain, n)|);
    assert Visited(chain, n) == chain[..|Visited(chain, n)|];
  }

  lemma {:induction false} ElementsAre(chain: seq<nat>)
    ensures forall x :: x in Elements(chain) <==> x in chain
  {
    if chain != [] {
      ElementsAre(chain[1..]);
    }
  }

  /** Visible candidates are in the window, and all of the bucket when it has few strings. */
  lemma VisibleAre(p: Params, c: Config, data: seq<Byte>, k: nat)
    requires c.Ok() && c.cutValue < 0x1_0000_0000
    ensures var mates := Mates(c, data, k, k + 1 - p.cyclicSize, c.MainHash(data, k));
            && (forall x :: x in Visible(p, c, data, k) ==> k - p.cyclicSize < x < k)
            && (|mates| <= Visits(c.cutValue) ==>
                  forall x: nat :: x in Visible(p, c, data, k)
                      <==> k - p.cyclicSize < x < k && c.MainHash(data, x) == c.MainHash(data, k))
  {
    hide Config.MainHash, Mates, Elements, Visited;
    var mates := Mates(c, data, k, k + 1 - p.cyclicSize, c.MainHash(data, k));
    VisitedWithin(mates, Visits(c.cutValue));
    ElementsAre(mates);
    MatesAre(c, data, k, k + 1 - p.cyclicSize, c.MainHash(data, k));
  }

  /** The report is true for any cutValue, and complete for 4 bytes and more when the window holds no
      more strings of the current bucket than the search visits. */
  lemma ReportHcIsTrue(p: Params, c: Config, data: seq<Byte>, f: Finder, chains: seq<seq<nat>>)
    requires HcInv(p, c, data, f, chains) && c.Ok() && f.window.cur < |data| && c.cutValue < 0x1_0000_0000
    ensures var k, found := f.window.cur, ReportHc(p, c, data, f);
            && TrueReport(p, c, data, k, found)
            && (FewMates(p, c, data, k) ==> CompleteReport(p, c, data, k, found))
  {
    hide GetMatchesHc, ChainOk, HeadsNewest, Increasing, Scan, Long, Len, WindowSet;
    InputRemains(p, f.window);
    if f.window.lenLimit >= 4 {
      GetMatchesHcTrue(p, c, data, ViewOf(p, f.window), f.tables, f.window.lenLimit, chains);
      SameWindow(p, f.window);
    }
  }

  lemma SameWindow(p: Params, w: Window)
    ensures WindowSet(ViewOf(p, w)) == WindowSet(WindowAt(p, w.cur))
  {
  }

  predicate FewMates(p: Params, c: Config, data: seq<Byte>, k: nat)
    requires c.Ok() && c.cutValue < 0x1_0000_0000
  {
    |Mates(c, data, k, k + 1 - p.cyclicSize, c.MainHash(data, k))| <= Visits(c.cutValue)
  }

  lemma TailHc(p: Params, c: Config, data: seq<Byte>, v: View, lim: nat, maxLen: nat)
    requires c.Ok() && c.bytes == 4 && v.cyclicSize == p.cyclicSize && 3 <= maxLen < lim && c.cutValue < 0x1_0000_0000
    ensures var tail := Scan(data, Visible(p, c, data, v.cur), v.cur, v.cur, lim, maxLen);
            && Increasing(tail, maxLen, 0) && AllExact(data, v, lim, tail)
            && (FewMates(p, c, data, v.cur) ==> tail == Scan(data, WindowSet(v), v.cur, v.cur, lim, maxLen))
  {
    hide Config.MainHash, Scan, Len, Increasing, Mates, Visible;
    var s := Visible(p, c, data, v.cur);
    var tail := Scan(data, s, v.cur, v.cur, lim, maxLen);
    VisibleAre(p, c, data, v.cur);
    ScanIncreases(data, s, v.cur, v.cur, lim, maxLen);
    forall k | 0 <= k < |tail| ensures Exact(data, v, lim, tail[k]) {
      ScanReports(data, s, v.cur, v.cur, lim, maxLen, tail[k]);
    }
    if FewMates(p, c, data, v.cur) {
      forall x | 0 <= x < v.cur && maxLen < Len(data, x, v.cur, lim) ensures x in s <==> x in WindowSet(v) {
        SameBucket(c, data, x, v.cur, lim);
      }
      ScanIgnores(data, s, WindowSet(v), v.cur, v.cur, lim, maxLen);
    }
  }

  lemma GetMatchesHcTrue(p: Params, c: Config, data: seq<Byte>, v: View, tb: Tables, lim: nat, chains: seq<seq<nat>>)
    requires SizedHc(c, v, tb) && 4 <= lim && IndexedHc(c, data, v, v.cur, tb, chains) && c.cutValue < 0x1_0000_0000
    requires v.cyclicSize == p.cyclicSize
    ensures var found := GetMatchesHc(c, c.cutValue, data, v, tb, lim).found;
            && AllExact(data, v, lim, found) && Increasing(found, 1, 0)
            && (FewMates(p, c, data, v.cur) ==> Long(found, 4) == Scan(data, WindowSet(v), v.cur, v.cur, lim, 3))
  {
    hide HeadMatches, FastChain, EnterHeads, ChainOk, HeadsNewest, Config.MainHash, GoodFirst, Scan, Long, Increasing,
         AllExact,
         WindowSet, FewMates, Visible;
    HeadMatchesGood(c, data, v, tb, lim);
    HeadMatchesBounded(c, data, v, tb, lim);
    var cand := HeadMatches(c, data, v, tb, lim);
    if cand.first != [] {
      HeadsLead(c, data, v, lim, cand);
      if cand.maxLen == lim {
        ScanExhausted(data, WindowSet(v), v.cur, v.cur, lim, lim);
        assert Long(cand.first, c.bytes) + [] == Long(cand.first, c.bytes);
        FirstExact(c, data, v, lim, cand);
        FirstIncreases(c, data, v, lim, cand);
        return;
      }
    }
    var h := c.MainHash(data, v.cur);
    var maxLen := Threshold(c, cand.maxLen);
    var tail := FastChain(data, v, tb.son[v.cyclicPos := tb.heads[h]], tb.heads[h], c.cutValue, lim, maxLen);
    ChainTail(p, c, data, v, lim, maxLen, tb.heads[h], tb.son, chains[h]);
    TailHc(p, c, data, v, lim, maxLen);
    JoinTail(c, data, v, lim, cand, tail);
  }

  // ---- Whole runs ----

  predicate SetupHc(p: Params, c: Config, data: seq<Byte>, son: seq<UInt32>) {
    p.Ok() && c.Ok() && c.bytes == 4 && c.cutValue < 0x1_0000_0000 && p.size == |data| && |son| == p.cyclicSize
  }

  /** The finder after `k` positions of any run of GetMatches and Skip. */
  ghost function AfterHc(p: Params, c: Config, data: seq<Byte>, son: seq<UInt32>, k: nat): (r: (Finder, seq<seq<nat>>))
    requires SetupHc(p, c, data, son) && k <= |data|
    ensures HcInv(p, c, data, r.0, r.1) && r.0.window.cur == k
    decreases k
  {
    if k == 0 then
      StartHcInv(p, c, data, son);
      StartsAtZero(p);
      (Start(p, c, son), NoChains(c.buckets))
    else
      var (f, chains) := AfterHc(p, c, data, son, k - 1);
      InputRemains(p, f.window);
      NextHcKeepsInv(p, c, data, f, chains);
      (NextHc(p, c, data, f), ChainsNext(p, c, data, f, chains))
  }

  /** At every position of every run, for any cutValue: the report is the short matches and the naive
      search over the visible candidates, it is true, and it is complete when the bucket has few strings. */
  lemma EveryPositionHc(p: Params, c: Config, data: seq<Byte>, son: seq<UInt32>, k: nat)
    requires SetupHc(p, c, data, son) && k < |data|
    ensures var f := AfterHc(p, c, data, son, k).0;
            var found := ReportHc(p, c, data, f);
            && f.window.cur == k && found == IndexReportHc(p, c, data, k)
            && TrueReport(p, c, data, k, found)
            && (FewMates(p, c, data, k) ==> CompleteReport(p, c, data, k, found))
  {
    hide AfterHc, ReportHc, IndexReportHc, TrueReport, CompleteReport, FewMates;
    var (f, chains) := AfterHc(p, c, data, son, k);
    ReportHcIsIndex(p, c, data, f, chains);
    ReportHcIsTrue(p, c, data, f, chains);
  }
}
