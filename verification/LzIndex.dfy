/** The binary-tree match finder without position numbers: an index over the input alone, in which
    nothing is ever renumbered, and which every run agrees with. */
module LzIndex {
  import opened Words
  import opened LzTree
  import opened LzSon
  import opened LzWindow
  import opened LzBuckets
  import opened LzMatches
  import opened LzRun

  /** The nearest index in lo .. i-1 whose hash is `slot`, or -1. */
  function Nearest(hash: int -> nat, slot: nat, i: nat, lo: int): (x: int)
    ensures -1 <= x < i
    ensures x >= 0 ==> x >= lo && hash(x) == slot
    ensures forall y: nat :: lo <= y < i && hash(y) == slot ==> y <= x
  {
    if i == 0 || i - 1 < lo then -1
    else if hash(i - 1) == slot then i - 1
    else Nearest(hash, slot, i - 1, lo)
  }

  predicate SameFirst(data: seq<Byte>, x: int, cur: nat) {
    x >= 0 && At(data, x, 0) == At(data, cur, 0)
  }

  /** The short matches: the nearest strings with the same 2-byte and 3-byte hash. */
  function IndexHeads(c: Config, data: seq<Byte>, cur: nat, lo: int, lim: nat): Candidates
    requires c.Ok() && c.bytes <= lim
  {
    if c.bytes == 2 then Candidates([], 1)
    else
      var x2 := Nearest(Hash2(c, data), H2At(c, data, cur), cur, lo);
      if c.bytes == 3 then
        if SameFirst(data, x2, cur) then
          var len := Lcp(data, x2, cur, 2, lim);
          Candidates([Match(len, cur - x2 - 1)], len)
        else
          Candidates([], 2)
      else
        var x3 := Nearest(Hash3(c, data), H3At(c, data, cur), cur, lo);
        if x2 != x3 && SameFirst(data, x3, cur) then
          var len := Lcp(data, x3, cur, 3, lim);
          Candidates((if SameFirst(data, x2, cur) then [Match(2, cur - x2 - 1)] else []) + [Match(len, cur - x3 - 1)],
                     len)
        else if SameFirst(data, x2, cur) then
          var len := Lcp(data, x2, cur, 2, lim);
          Candidates([Match(len, cur - x2 - 1)], len)
        else
          Candidates([], 0)
  }

  /** How many bytes a string at `k` may be compared on. */
  function LimitAt(p: Params, data: seq<Byte>, k: nat): nat
    requires p.Ok() && k <= |data|
  {
    Min(p.matchMaxLen, |data| - k)
  }

  /** The trees of the buckets after the first `k` strings. */
  function IndexTrees(p: Params, c: Config, data: seq<Byte>, k: nat): (trees: seq<Tree>)
    requires p.Ok() && c.Ok() && k <= |data|
    ensures |trees| == c.buckets
  {
    if k == 0 then Leaves(c.buckets)
    else
      var cur, trees := k - 1, IndexTrees(p, c, data, k - 1);
      var lim, h := LimitAt(p, data, cur), c.MainHash(data, cur);
      PruneAll(if lim < c.bytes then trees
               else trees[h := Inserted(c, data, cur, lim, 0, trees[h])], cur + 2 - p.cyclicSize)
  }

  /** What is reported at `k`, from the input alone. */
  function IndexReport(p: Params, c: Config, data: seq<Byte>, k: nat): seq<Match>
    requires p.Ok() && c.Ok() && k < |data|
  {
    var lim := LimitAt(p, data, k);
    if lim < c.bytes then []
    else
      var cand := IndexHeads(c, data, k, k + 1 - p.cyclicSize, lim);
      if cand.first != [] && cand.maxLen == lim then cand.first
      else cand.first + TreeMatches(c, data, k, lim, Threshold(c, cand.maxLen), IndexTrees(p, c, data, k))
  }

  function TreeMatches(c: Config, data: seq<Byte>, k: nat, lim: nat, maxLen: nat, trees: seq<Tree>): seq<Match>
    requires c.Ok() && |trees| == c.buckets && 0 < lim
  {
    SearchTree(data, trees[c.MainHash(data, k)], k, lim, c.cutValue, 0, 0, maxLen).found
  }

  // ---- Every run agrees ----

  lemma HeadIsNearest(data: seq<Byte>, v: View, hash: int -> nat, slot: nat, ref: UInt32)
    requires v.Valid() && NewestAt(data, v, v.cur, hash, slot, ref)
    ensures var x := Nearest(hash, slot, v.cur, v.cur + 1 - v.cyclicSize);
            && (v.InWindow(ref) <==> x >= 0)
            && (v.InWindow(ref) ==> v.cur - v.Delta(ref) == x)
  {
    hide Nearest;
    var x := Nearest(hash, slot, v.cur, v.cur + 1 - v.cyclicSize);
    if v.InWindow(ref) {
      var y := v.cur - v.Delta(ref);
      assert y <= x;
    }
  }

  lemma HeadsAreNearest(c: Config, data: seq<Byte>, v: View, tb: Tables, lim: nat)
    requires HeadsSized(c, tb) && v.Valid() && c.bytes <= lim && HeadsNewest(c, data, v, v.cur, tb)
    ensures HeadMatches(c, data, v, tb, lim) == IndexHeads(c, data, v.cur, v.cur + 1 - v.cyclicSize, lim)
  {
    hide View.Delta, H2At, H3At, Lcp, Nearest;
    var slot2, slot3 := H2At(c, data, v.cur), H3At(c, data, v.cur);
    if c.bytes >= 3 {
      HeadIsNearest(data, v, Hash2(c, data), slot2, tb.head2[slot2]);
    }
    if c.bytes == 4 {
      HeadIsNearest(data, v, Hash3(c, data), slot3, tb.head3[slot3]);
    }
  }

  lemma ReportFromTrees(p: Params, c: Config, data: seq<Byte>, f: Finder, trees: seq<Tree>)
    requires FinderInv(p, c, data, f, trees) && f.window.cur < |data|
    requires trees == IndexTrees(p, c, data, f.window.cur)
    ensures Report(p, c, data, f) == IndexReport(p, c, data, f.window.cur)
  {
    hide Inv, HeadsNewest, HeadMatches, IndexHeads, GetLoop, SearchTree, IndexTrees, Config.MainHash, BucketOk;
    InputRemains(p, f.window);
    if f.window.lenLimit >= c.bytes {
      var v, tb, lim := ViewOf(p, f.window), f.tables, f.window.lenLimit;
      HeadsAreNearest(c, data, v, tb, lim);
      HeadMatchesBounded(c, data, v, tb, lim);
      var cand := HeadMatches(c, data, v, tb, lim);
      if !(cand.first != [] && cand.maxLen == lim) {
        TailIsTreeMatches(c, data, v, tb, lim, Threshold(c, cand.maxLen), trees);
      }
    }
  }

  lemma TailIsTreeMatches(c: Config, data: seq<Byte>, v: View, tb: Tables, lim: nat, maxLen: nat, trees: seq<Tree>)
    requires Sized(c, v, tb) && maxLen < lim && |trees| == c.buckets
    requires Buckets(c, data, v, v.cur, lim, tb.heads, tb.son, trees)
    ensures SonAfter(c, data, v, tb.son, tb.heads[c.MainHash(data, v.cur)], lim, maxLen).found
            == TreeMatches(c, data, v.cur, lim, maxLen, trees)
  {
    hide SonAfter, BucketOk, Config.MainHash, SearchTree;
    BucketsInsert(c, data, v, lim, maxLen, tb.heads, tb.son, trees);
  }

  /** After `k` positions, the trees of any run are those of the index. */
  lemma {:induction false} TreesOfRun(p: Params, c: Config, data: seq<Byte>, son: seq<UInt32>, k: nat)
    requires Setup(p, c, data, son) && k <= |data|
    ensures After(p, c, data, son, k).1 == IndexTrees(p, c, data, k)
  {
    hide After, FinderInv, PruneAll, Config.MainHash, Inserted, Leaves;
    if k == 0 {
      NothingIndexed(p, c, data, son);
    } else {
      TreesOfRun(p, c, data, son, k - 1);
      var (f, trees) := After(p, c, data, son, k - 1);
      TreesStep(p, c, data, f, trees);
      OneMore(p, c, data, son, k);
    }
  }

  lemma NothingIndexed(p: Params, c: Config, data: seq<Byte>, son: seq<UInt32>)
    requires Setup(p, c, data, son)
    ensures After(p, c, data, son, 0).1 == Leaves(c.buckets)
  {
  }

  lemma OneMore(p: Params, c: Config, data: seq<Byte>, son: seq<UInt32>, k: nat)
    requires Setup(p, c, data, son) && 0 < k <= |data|
    ensures var (f, trees) := After(p, c, data, son, k - 1);
            Matching(p, c, data, f) && After(p, c, data, son, k).1 == TreesNext(p, c, data, f, trees)
  {
    hide Next, TreesNext;
  }

  lemma TreesStep(p: Params, c: Config, data: seq<Byte>, f: Finder, trees: seq<Tree>)
    requires FinderInv(p, c, data, f, trees) && f.window.cur < |data| && c.Ok() && |trees| == c.buckets
    ensures var cur, lim := f.window.cur, LimitAt(p, data, f.window.cur);
            var h := c.MainHash(data, cur);
            TreesNext(p, c, data, f, trees)
            == PruneAll(if lim < c.bytes then trees else trees[h := Inserted(c, data, cur, lim, 0, trees[h])],
                        cur + 2 - p.cyclicSize)
  {
    hide Inv, Indexed, SearchTree, PruneAll, Config.MainHash;
    InputRemains(p, f.window);
  }

  /** One step of a run is one step of the index. */
  lemma TreesAdvance(p: Params, c: Config, data: seq<Byte>, f: Finder, trees: seq<Tree>)
    requires c.Ok() && FinderInv(p, c, data, f, trees) && f.window.cur < |data|
    requires trees == IndexTrees(p, c, data, f.window.cur)
    ensures TreesNext(p, c, data, f, trees) == IndexTrees(p, c, data, f.window.cur + 1)
  {
    hide FinderInv, TreesNext, PruneAll, Config.MainHash, Inserted;
    TreesStep(p, c, data, f, trees);
  }

  /** Renumbering is invisible: at every position of every run the report is that of the index, in
      which positions have no numbers, for any cutValue. */
  lemma RunIsIndex(p: Params, c: Config, data: seq<Byte>, son: seq<UInt32>, k: nat)
    requires Setup(p, c, data, son) && k < |data|
    ensures Report(p, c, data, After(p, c, data, son, k).0) == IndexReport(p, c, data, k)
  {
    hide FinderInv, Report, IndexReport, IndexTrees, After;
    TreesOfRun(p, c, data, son, k);
    var (f, trees) := After(p, c, data, son, k);
    ReportFromTrees(p, c, data, f, trees);
  }

  // ---- Completeness ----

  /** At `j` the tree of the string's bucket has no more live levels than the search visits. */
  predicate Roomy(p: Params, c: Config, data: seq<Byte>, j: nat)
    requires p.Ok() && c.Ok() && j <= |data|
  {
    Height(IndexTrees(p, c, data, j)[c.MainHash(data, j)]) <= c.cutValue
  }

  /** No search since the string at `x` was entered in its bucket has been cut short there. */
  ghost predicate NeverCut(p: Params, c: Config, data: seq<Byte>, x: int, k: nat)
    requires p.Ok() && c.Ok() && k <= |data|
  {
    forall j: nat :: x < j < k && c.MainHash(data, j) == c.MainHash(data, x) ==> Roomy(p, c, data, j)
  }

  /** Every search in the current bucket since the oldest string of the window, the present one
      included, visits the whole tree. What happened in other buckets, or before, does not matter. */
  ghost predicate AllRoomy(p: Params, c: Config, data: seq<Byte>, k: nat)
    requires p.Ok() && c.Ok() && k <= |data|
  {
    && Roomy(p, c, data, k)
    && forall j: nat :: k + 1 - p.cyclicSize < j < k && c.MainHash(data, j) == c.MainHash(data, k) ==>
         Roomy(p, c, data, j)
  }

  /** The trees of the index are search trees of the strings of their buckets in the window. */
  lemma TreesOk(p: Params, c: Config, data: seq<Byte>, k: nat, h: nat)
    requires p.Ok() && c.Ok() && p.size == |data| && k <= |data| && h < c.buckets && LimitAt(p, data, k) >= c.bytes
    ensures var t := IndexTrees(p, c, data, k)[h];
            && SearchTreeOf(data, t, k, LimitAt(p, data, k))
            && forall x :: x in Nodes(t) ==> k - p.cyclicSize < x < k && c.MainHash(data, x) == h
  {
    hide After, IndexTrees, Inv, Rep, SearchTreeOf, Config.MainHash;
    var son := Empties(2 * p.cyclicSize);
    TreesOfRun(p, c, data, son, k);
    var (f, trees) := After(p, c, data, son, k);
    InputRemains(p, f.window);
    var v := ViewOf(p, f.window);
    assert BucketOk(c, data, v, k, f.window.lenLimit, h, f.tables.heads[h], f.tables.son, trees[h]);
    RepInWindow(f.tables.son, f.tables.heads[h], trees[h], v);
    TreeOlder(data, trees[h], k, f.window.lenLimit);
  }

  lemma TreeOlder(data: seq<Byte>, t: Tree, b: nat, lim: nat)
    requires SearchTreeOf(data, t, b, lim)
    ensures OlderThan(t, b) && forall x :: x in Nodes(t) ==> x < b
  {
    OlderNodes(t, b);
  }

  lemma IndexUnfolds(p: Params, c: Config, data: seq<Byte>, k: nat)
    requires p.Ok() && c.Ok() && 0 < k <= |data|
    ensures var cur, trees := k - 1, IndexTrees(p, c, data, k - 1);
            var lim, h := LimitAt(p, data, cur), c.MainHash(data, cur);
            forall g :: 0 <= g < c.buckets ==>
              IndexTrees(p, c, data, k)[g]
              == Prune(if g == h && lim >= c.bytes then Inserted(c, data, cur, lim, 0, trees[g])
                       else trees[g], k + 1 - p.cyclicSize)
  {
    hide Prune, Inserted, Config.MainHash;
  }

  /** A string of the window that no cut search can have lost is stood for in its bucket. */
  lemma {:induction false} Stands(p: Params, c: Config, data: seq<Byte>, k: nat, x: nat)
    requires p.Ok() && c.Ok() && p.size == |data| && k - p.cyclicSize < x < k <= |data|
             && LimitAt(p, data, k) >= c.bytes
    requires NeverCut(p, c, data, x, k)
    ensures StoodFor(data, IndexTrees(p, c, data, k)[c.MainHash(data, x)], x, LimitAt(p, data, k))
    decreases k
  {
    hide IndexTrees, Prune, Inserted, Config.MainHash, StoodFor, Height, OlderThan, Ordered, Distinct, Nodes;
    var cur, g := k - 1, c.MainHash(data, x);
    var lim, t := LimitAt(p, data, cur), IndexTrees(p, c, data, cur)[g];
    IndexUnfolds(p, c, data, k);
    TreesOk(p, c, data, cur, g);
    if c.MainHash(data, cur) == g {
      if x == cur {
        CurrentStoodFor(c, data, cur, lim, 0, t);
      } else {
        Stands(p, c, data, cur, x);
        assert Roomy(p, c, data, cur);
        StillStoodFor(c, data, cur, lim, 0, t, x);
      }
      InsertKeepsInvariant(data, t, cur, lim, c.cutValue, 0);
      InsertedOlder(c, data, cur, lim, t);
      StoodForMovesOn(data, Inserted(c, data, cur, lim, 0, t), k, k + 1 - p.cyclicSize, x, lim, LimitAt(p, data, k));
    } else {
      Stands(p, c, data, cur, x);
      StoodForMovesOn(data, t, cur, k + 1 - p.cyclicSize, x, lim, LimitAt(p, data, k));
    }
  }

  lemma InsertedOlder(c: Config, data: seq<Byte>, cur: nat, lim: nat, t: Tree)
    requires 0 < lim && SearchTreeOf(data, t, cur, lim)
    ensures OlderThan(Inserted(c, data, cur, lim, 0, t), cur + 1)
  {
    hide SearchTree, Ordered;
    InsertKeepsInvariant(data, t, cur, lim, c.cutValue, 0);
  }

  /** With room in the current bucket the report is complete: its matches of at least `c.bytes` bytes
      are exactly the naive answer over the window. */
  ghost predicate CompleteReport(p: Params, c: Config, data: seq<Byte>, k: nat, found: seq<Match>)
    requires c.Ok()
  {
    var v, lim := WindowAt(p, k), Min(p.matchMaxLen, |data| - k);
    c.bytes <= lim ==> Long(found, c.bytes) == Scan(data, WindowSet(v), k, k, lim, c.bytes - 1)
  }

  /** At every position of every input, after any mix of GetMatches and Skip calls and across
      renumberings: the report is true and, when no search in the bucket is cut short, complete. */
  lemma EveryPosition(p: Params, c: Config, data: seq<Byte>, son: seq<UInt32>, k: nat)
    requires Setup(p, c, data, son) && k < |data|
    ensures var f := After(p, c, data, son, k).0;
            && f.window.cur == k
            && TrueReport(p, c, data, k, Report(p, c, data, f))
            && (AllRoomy(p, c, data, k) ==> CompleteReport(p, c, data, k, Report(p, c, data, f)))
  {
    hide FinderInv, TrueReport, CompleteReport, Report, After, IndexTrees, AllRoomy;
    var (f, trees) := After(p, c, data, son, k);
    ReportIsTrue(p, c, data, f, trees);
    if AllRoomy(p, c, data, k) {
      TreesOfRun(p, c, data, son, k);
      ReportIsComplete(p, c, data, f, trees);
    }
  }

  lemma ReportIsComplete(p: Params, c: Config, data: seq<Byte>, f: Finder, trees: seq<Tree>)
    requires c.Ok() && FinderInv(p, c, data, f, trees) && f.window.cur < |data|
    requires trees == IndexTrees(p, c, data, f.window.cur) && AllRoomy(p, c, data, f.window.cur)
    ensures CompleteReport(p, c, data, f.window.cur, Report(p, c, data, f))
  {
    hide GetMatches, HeadsNewest, Buckets, IndexTrees, Inv, Scan, Long, Height, StoodFor, Config.MainHash;
    InputRemains(p, f.window);
    var k, lim := f.window.cur, f.window.lenLimit;
    if lim >= c.bytes {
      var v, h := ViewOf(p, f.window), c.MainHash(data, k);
      forall x: nat | k - p.cyclicSize < x < k && c.MainHash(data, x) == h ensures StoodFor(data, trees[h], x, lim) {
        Stands(p, c, data, k, x);
      }
      GetMatchesIsNaive(c, data, v, f.tables, lim, trees);
      assert WindowSet(v) == WindowSet(WindowAt(p, k));
    }
  }

  /** Room for the window's strings of the bucket is room for its tree. */
  lemma FewStringsAreRoomy(p: Params, c: Config, data: seq<Byte>, j: nat)
    requires p.Ok() && c.Ok() && p.size == |data| && j <= |data| && LimitAt(p, data, j) >= c.bytes
    requires |Mates(c, data, j, j + 1 - p.cyclicSize, c.MainHash(data, j))| <= c.cutValue
    ensures Roomy(p, c, data, j)
  {
    hide IndexTrees, Mates, Height, Config.MainHash, Ordered, Distinct, OlderThan, Nodes;
    var h := c.MainHash(data, j);
    TreesOk(p, c, data, j, h);
    HeightBound(c, data, IndexTrees(p, c, data, j)[h], j, j + 1 - p.cyclicSize, h);
  }

  /** So is a cutValue of at least historySize. */
  lemma LongSearchesAreRoomy(p: Params, c: Config, data: seq<Byte>, k: nat)
    requires p.Ok() && c.Ok() && p.size == |data| && k <= |data| && LimitAt(p, data, k) >= c.bytes
    requires p.cyclicSize <= c.cutValue + 1
    ensures AllRoomy(p, c, data, k)
  {
    hide IndexTrees, Mates, Roomy, Config.MainHash;
    forall j: nat | j <= k ensures Roomy(p, c, data, j) {
      FewStringsAreRoomy(p, c, data, j);
    }
  }

  // ---- What a cut search sees and loses ----

  /** For any cutValue the report is the short matches and, unless one of them has full length, the naive
      search over the first cutValue strings on the way down the bucket's tree. */
  lemma ReportIsVisited(p: Params, c: Config, data: seq<Byte>, k: nat)
    requires p.Ok() && c.Ok() && p.size == |data| && k < |data| && c.bytes <= LimitAt(p, data, k)
    ensures var lim, cand := LimitAt(p, data, k),
                             IndexHeads(c, data, k, k + 1 - p.cyclicSize, LimitAt(p, data, k));
            var path := PathNodes(data, IndexTrees(p, c, data, k)[c.MainHash(data, k)], k, lim, c.cutValue);
            && |path| <= c.cutValue
            && IndexReport(p, c, data, k)
               == if cand.first != [] && cand.maxLen == lim then cand.first
                  else
                    cand.first
                    + Scan(data, path, k, k, lim, if cand.maxLen < c.bytes then c.bytes - 1 else cand.maxLen)
  {
    hide IndexTrees, IndexHeads, SearchTree, Scan, PathNodes, Ordered, OlderThan, Distinct, Config.MainHash, Near,
         Nodes;
    var h, lim := c.MainHash(data, k), LimitAt(p, data, k);
    var t, cand := IndexTrees(p, c, data, k)[h], IndexHeads(c, data, k, k + 1 - p.cyclicSize, lim);
    PathIsShort(data, t, k, lim, c.cutValue);
    if cand.first == [] || cand.maxLen != lim {
      TreesOk(p, c, data, k, h);
      NearAtStart(data, t, k, lim);
      HeadsLeaveRoom(c, data, k, k + 1 - p.cyclicSize, lim);
      FoundIsVisited(data, t, k, k, lim, c.cutValue, 0, 0, Threshold(c, cand.maxLen));
    }
  }

  lemma HeadsLeaveRoom(c: Config, data: seq<Byte>, cur: nat, lo: int, lim: nat)
    requires c.Ok() && c.bytes <= lim
    ensures var cand := IndexHeads(c, data, cur, lo, lim);
            cand.first == [] || cand.maxLen != lim ==> Threshold(c, cand.maxLen) < lim
  {
    hide Nearest, H2At, H3At, Hash2, Hash3;
  }

  /** The strings in the bucket's tree after a position: the string there, and those before it but for what
      the search did not get to, the equal one it met, and those that leave the window. */
  lemma TreeAfter(p: Params, c: Config, data: seq<Byte>, k: nat)
    requires p.Ok() && c.Ok() && p.size == |data| && k < |data| && c.bytes <= LimitAt(p, data, k)
    ensures var lim, h := LimitAt(p, data, k), c.MainHash(data, k);
            var t := IndexTrees(p, c, data, k)[h];
            var kept := Nodes(t) - Nodes(Reached(data, t, k, lim, c.cutValue))
                        - EqualOnes(data, PathNodes(data, t, k, lim, c.cutValue), k, lim);
            forall x :: x in Nodes(IndexTrees(p, c, data, k + 1)[h])
                        <==> k + 2 - p.cyclicSize <= x && (x == k || x in kept)
  {
    hide IndexTrees, SearchTree, PathNodes, Reached, EqualOnes, Ordered, OlderThan, Distinct, Config.MainHash, Near,
         Nodes, Prune;
    var h, lim := c.MainHash(data, k), LimitAt(p, data, k);
    var t := IndexTrees(p, c, data, k)[h];
    IndexUnfolds(p, c, data, k + 1);
    TreesOk(p, c, data, k, h);
    NearAtStart(data, t, k, lim);
    SplitLoses(data, t, k, k, lim, c.cutValue, 0, 0, 0);
    var s := SearchTree(data, t, k, lim, c.cutValue, 0, 0, 0);
    NodesAre(k, s.left, s.right);
    InsertedOlder(c, data, k, lim, t);
    PruneNodes(Inserted(c, data, k, lim, 0, t), k + 1, k + 2 - p.cyclicSize);
  }
}
