/** Whole runs of the binary-tree match finders, from MatchFinder_Init over any mix of GetMatches
    and Skip calls, renumbering included. */
module LzRun {
  import opened Words
  import opened LzTree
  import opened LzSon
  import opened LzHash
  import opened LzWindow
  import opened LzBuckets
  import opened LzMatches

  /** The moving part of CMatchFinder. */
  datatype Finder = Finder(window: Window, tables: Tables)

  function RenumberTables(sub: UInt32, tb: Tables): Tables {
    Tables(RenumberAll(sub, tb.head2), RenumberAll(sub, tb.head3), RenumberAll(sub, tb.heads), RenumberAll(sub, tb.son))
  }

  predicate Matching(p: Params, c: Config, data: seq<Byte>, f: Finder) {
    && p.Ok() && p.size == |data| && f.window.cyclicPos < p.cyclicSize && p.cyclicSize <= f.window.pos
    && Sized(c, ViewOf(p, f.window), f.tables)
  }

  /** The tables after the current string is entered, by GetMatches and by Skip alike; with fewer
      than `c.bytes` bytes ahead neither touches them. */
  function Entered(p: Params, c: Config, data: seq<Byte>, f: Finder): Tables
    requires Matching(p, c, data, f)
  {
    if f.window.lenLimit < c.bytes then f.tables
    else Skip(c, data, ViewOf(p, f.window), f.tables, f.window.lenLimit)
  }

  /** One position on. */
  function Next(p: Params, c: Config, data: seq<Byte>, f: Finder): Finder
    requires Matching(p, c, data, f)
  {
    Finder(MovePos(p, f.window), RenumberTables(MoveShift(p, f.window), Entered(p, c, data, f)))
  }

  /** What GetMatches reports. */
  function Report(p: Params, c: Config, data: seq<Byte>, f: Finder): seq<Match>
    requires Matching(p, c, data, f)
  {
    if f.window.lenLimit < c.bytes then []
    else GetMatches(c, data, ViewOf(p, f.window), f.tables, f.window.lenLimit).found
  }

  /** The finder invariant. `trees` are the ghost trees of the buckets. */
  ghost predicate FinderInv(p: Params, c: Config, data: seq<Byte>, f: Finder, trees: seq<Tree>) {
    && Inv(p, f.window) && Matching(p, c, data, f)
    && (f.window.lenLimit >= c.bytes
        ==> Indexed(c, data, ViewOf(p, f.window), f.window.cur, f.window.lenLimit, f.tables, trees))
  }

  /** The tables index every string before `b`. */
  ghost predicate Indexed(c: Config, data: seq<Byte>, v: View, b: nat, lim: nat, tb: Tables, trees: seq<Tree>)
    requires Sized(c, v, tb)
  {
    && HeadsNewest(c, data, v, b, tb)
    && Buckets(c, data, v, b, lim, tb.heads, tb.son, trees)
  }

  // ---- Entering ----

  /** The tree of the current bucket after Skip. */
  function TreesAfter(c: Config, data: seq<Byte>, v: View, lim: nat, trees: seq<Tree>): seq<Tree>
    requires c.Ok() && |trees| == c.buckets && 0 < lim
  {
    var h0 := c.MainHash(data, v.cur);
    trees[h0 := Inserted(c, data, v.cur, lim, 0, trees[h0])]
  }

  lemma SkipIndexes(c: Config, data: seq<Byte>, v: View, lim: nat, tb: Tables, trees: seq<Tree>)
    requires Sized(c, v, tb) && c.bytes <= lim && |trees| == c.buckets
    requires Indexed(c, data, v, v.cur, lim, tb, trees)
    ensures Indexed(c, data, v, v.cur + 1, lim, Skip(c, data, v, tb, lim), TreesAfter(c, data, v, lim, trees))
  {
    hide HeadsNewest, BucketOk, Config.MainHash, Inserted, GetLoop, SkipLoop;
    HeadsEnter(c, data, v, tb, lim);
    BucketsInsert(c, data, v, lim, 0, tb.heads, tb.son, trees);
    SkipIsGet(data, v, tb.son, 2 * v.cyclicPos + 1, 2 * v.cyclicPos, tb.heads[c.MainHash(data, v.cur)], c.cutValue, 0,
              0, lim, 0);
  }

  lemma HeadsEnter(c: Config, data: seq<Byte>, v: View, tb: Tables, lim: nat)
    requires Sized(c, v, tb) && c.bytes <= lim && HeadsNewest(c, data, v, v.cur, tb)
    ensures HeadsNewest(c, data, v, v.cur + 1, Skip(c, data, v, tb, lim))
  {
    hide Newest, SkipSon, Config.MainHash, H2At, H3At;
    if c.bytes >= 3 {
      NewestEnter(data, v, Hash2(c, data), tb.head2);
    }
    if c.bytes == 4 {
      NewestEnter(data, v, Hash3(c, data), tb.head3);
    }
  }

  // ---- Moving and renumbering ----

  lemma IndexedMovesOn(c: Config, data: seq<Byte>, v: View, b: nat, lim: nat, lim': nat, tb: Tables, trees: seq<Tree>)
    requires Sized(c, v, tb) && v.pos < MAX_VAL_FOR_NORMALIZE && lim' <= lim
    requires Indexed(c, data, v, b, lim, tb, trees)
    ensures Sized(c, NextView(v), tb)
    ensures Indexed(c, data, NextView(v), b, lim', tb, PruneAll(trees, v.cur + 2 - v.cyclicSize))
  {
    hide Newest, Prune, BucketOk;
    NextViewKeeps(v);
    NextFields(v);
    if c.bytes >= 3 {
      NewestMovesOn(data, v, b, Hash2(c, data), tb.head2);
    }
    if c.bytes == 4 {
      NewestMovesOn(data, v, b, Hash3(c, data), tb.head3);
    }
    BucketsMoveOn(c, data, v, b, lim, lim', tb.heads, tb.son, trees);
  }

  lemma IndexedRenumbered(c: Config, data: seq<Byte>, v: View, b: nat, lim: nat, sub: UInt32, tb: Tables,
                          trees: seq<Tree>)
    requires Sized(c, v, tb) && sub <= v.pos - v.cyclicSize
    requires Indexed(c, data, v, b, lim, tb, trees)
    ensures Sized(c, v.(pos := v.pos - sub), RenumberTables(sub, tb))
    ensures Indexed(c, data, v.(pos := v.pos - sub), b, lim, RenumberTables(sub, tb), trees)
  {
    hide Newest, BucketOk, Renumber;
    if c.bytes >= 3 {
      NewestRenumbered(data, v, b, Hash2(c, data), sub, tb.head2);
    }
    if c.bytes == 4 {
      NewestRenumbered(data, v, b, Hash3(c, data), sub, tb.head3);
    }
    BucketsRenumbered(c, data, v, b, lim, sub, tb.heads, tb.son, trees);
  }

  /** The window MOVE_POS leaves is the next one, renumbered. */
  lemma MoveView(p: Params, w: Window)
    requires Inv(p, w) && w.Available() > 0
    ensures var v := NextView(ViewOf(p, w));
            && MoveShift(p, w) <= v.pos - v.cyclicSize
            && ViewOf(p, MovePos(p, w)) == v.(pos := v.pos - MoveShift(p, w))
  {
    hide CheckLimits, Shift;
    var w1 := Advance(w);
    assert w1 == w.(cyclicPos := w.cyclicPos + 1, cur := w.cur + 1, pos := w.pos + 1);
    if w1.pos == w1.posLimit {
      LimitView(p, w1);
    }
  }

  lemma LimitView(p: Params, w: Window)
    requires p.Ok() && p.cyclicSize <= w.pos && w.cyclicPos <= p.cyclicSize
    ensures var r := CheckLimits(p, w);
            && p.cyclicSize <= r.pos == w.pos - Shift(p, w) && r.cur == w.cur
            && r.cyclicPos == if w.cyclicPos == p.cyclicSize then 0 else w.cyclicPos
  {
    hide SetLimits, ReadBlock, ReduceOffsets, Shift;
    ReduceKeeps(p, w);
    var w1 := ReduceOffsets(Shift(p, w), w);
    ReduceOthers(Shift(p, w), w);
    ReadBlockOthers(w1);
    var w2 := if !w1.ended && p.keepSizeAfter == w1.Available() then ReadBlock(w1) else w1;
    var w3 := if w2.cyclicPos == p.cyclicSize then w2.(cyclicPos := 0) else w2;
    SetLimitsOthers(p, w3);
  }

  lemma ReadBlockOthers(w: Window)
    ensures var r := ReadBlock(w);
            r == w.(rem := r.rem, streamPos := r.streamPos, ended := r.ended)
  {
  }

  lemma NextMatches(p: Params, c: Config, data: seq<Byte>, f: Finder)
    requires Matching(p, c, data, f) && Inv(p, f.window) && f.window.Available() > 0
    ensures Sized(c, ViewOf(p, f.window), Entered(p, c, data, f))
    ensures Matching(p, c, data, Next(p, c, data, f)) && Inv(p, Next(p, c, data, f).window)
    ensures Next(p, c, data, f).window.cur == f.window.cur + 1
  {
    hide MovePos, MoveShift, Skip, Inv, Renumber;
    MovePosInv(p, f.window);
    InvView(p, MovePos(p, f.window));
  }

  lemma InvView(p: Params, w: Window)
    requires Inv(p, w)
    ensures p.Ok() && w.cyclicPos < p.cyclicSize && p.cyclicSize <= w.pos && w.pos < MAX_VAL_FOR_NORMALIZE
            && ViewOf(p, w).Valid()
  {
  }

  /** Every step keeps the finder invariant, whichever of GetMatches and Skip is called. */
  lemma NextKeepsInv(p: Params, c: Config, data: seq<Byte>, f: Finder, trees: seq<Tree>)
    requires FinderInv(p, c, data, f, trees) && f.window.Available() > 0
    ensures FinderInv(p, c, data, Next(p, c, data, f), TreesNext(p, c, data, f, trees))
    ensures Next(p, c, data, f).window.cur == f.window.cur + 1
  {
    hide Indexed, MovePos, MoveShift, Skip, NextView, Inv, Matching, PruneAll, RenumberTables, TreesAfter;
    NextMatches(p, c, data, f);
    var f' := Next(p, c, data, f);
    if f'.window.lenLimit >= c.bytes {
      IndexedNext(p, c, data, f, trees);
    }
  }

  lemma IndexedNext(p: Params, c: Config, data: seq<Byte>, f: Finder, trees: seq<Tree>)
    requires FinderInv(p, c, data, f, trees) && f.window.Available() > 0
    requires Matching(p, c, data, Next(p, c, data, f)) && Inv(p, Next(p, c, data, f).window)
    requires Next(p, c, data, f).window.cur == f.window.cur + 1
    requires Next(p, c, data, f).window.lenLimit >= c.bytes
    ensures var f' := Next(p, c, data, f);
            Indexed(c, data, ViewOf(p, f'.window), f'.window.cur, f'.window.lenLimit, f'.tables,
                    TreesNext(p, c, data, f, trees))
  {
    hide Indexed, MovePos, MoveShift, Skip, NextView, Inv, PruneAll, RenumberTables, TreesAfter;
    var w, v := f.window, ViewOf(p, f.window);
    var f' := Next(p, c, data, f);
    InvView(p, w);
    MoveView(p, w);
    NextViewKeeps(v);
    LenLimitFalls(p, w, f'.window);
    var lim' := f'.window.lenLimit;
    var tb := Skip(c, data, v, f.tables, w.lenLimit);
    IndexedSizes(c, data, v, w.cur, w.lenLimit, f.tables, trees);
    var trees' := TreesAfter(c, data, v, w.lenLimit, trees);
    SkipIndexes(c, data, v, w.lenLimit, f.tables, trees);
    IndexedMovesOn(c, data, v, w.cur + 1, w.lenLimit, lim', tb, trees');
    NextFields(v);
    IndexedRenumbered(c, data, NextView(v), w.cur + 1, lim', MoveShift(p, w), tb,
                      PruneAll(trees', v.cur + 2 - v.cyclicSize));
  }

  lemma IndexedSizes(c: Config, data: seq<Byte>, v: View, b: nat, lim: nat, tb: Tables, trees: seq<Tree>)
    requires Sized(c, v, tb) && Indexed(c, data, v, b, lim, tb, trees)
    ensures |trees| == c.buckets
  {
  }

  lemma LenLimitFalls(p: Params, w: Window, w': Window)
    requires Inv(p, w) && Inv(p, w') && w'.cur == w.cur + 1
    ensures w'.lenLimit <= w.lenLimit
  {
  }

  function EnteredTrees(p: Params, c: Config, data: seq<Byte>, f: Finder, trees: seq<Tree>): seq<Tree>
    requires Matching(p, c, data, f)
  {
    if f.window.lenLimit < c.bytes || |trees| != c.buckets then trees
    else TreesAfter(c, data, ViewOf(p, f.window), f.window.lenLimit, trees)
  }

  function TreesNext(p: Params, c: Config, data: seq<Byte>, f: Finder, trees: seq<Tree>): seq<Tree>
    requires Matching(p, c, data, f)
  {
    PruneAll(EnteredTrees(p, c, data, f, trees), f.window.cur + 2 - p.cyclicSize)
  }

  // ---- From the start ----

  predicate Setup(p: Params, c: Config, data: seq<Byte>, son: seq<UInt32>) {
    p.Ok() && c.Ok() && p.size == |data| && |son| == 2 * p.cyclicSize
  }

  function Empties(n: nat): (r: seq<UInt32>)
    ensures |r| == n && forall i :: 0 <= i < n ==> r[i] == EMPTY
  {
    seq(n, _ => EMPTY)
  }

  function Leaves(n: nat): (r: seq<Tree>)
    ensures |r| == n && forall i :: 0 <= i < n ==> r[i] == Leaf
  {
    seq(n, _ => Leaf)
  }

  /** MatchFinder_Init clears the heads; the sons are whatever the allocation left. */
  function Start(p: Params, c: Config, son: seq<UInt32>): Finder
    requires p.Ok()
  {
    Finder(Init(p), Tables(Empties(HASH2_SIZE), Empties(HASH3_SIZE), Empties(c.buckets), son))
  }

  lemma EmptyNewest(data: seq<Byte>, v: View, hash: int -> nat, n: nat)
    requires v.Valid()
    ensures Newest(data, v, 0, hash, Empties(n))
  {
  }

  lemma StartInv(p: Params, c: Config, data: seq<Byte>, son: seq<UInt32>)
    requires Setup(p, c, data, son)
    ensures FinderInv(p, c, data, Start(p, c, son), Leaves(c.buckets))
  {
    hide Init, Inv, Newest;
    InitInv(p);
    InvView(p, Init(p));
    StartsAtZero(p);
    var v := ViewOf(p, Init(p));
    EmptyNewest(data, v, Hash2(c, data), HASH2_SIZE);
    EmptyNewest(data, v, Hash3(c, data), HASH3_SIZE);
    EmptyRep(son, v);
  }

  lemma StartsAtZero(p: Params)
    requires p.Ok()
    ensures Init(p).cur == 0
  {
  }

  lemma InputRemains(p: Params, w: Window)
    requires Inv(p, w)
    ensures w.cur <= p.size && (w.cur < p.size <==> w.Available() > 0)
    ensures w.lenLimit == Min(p.matchMaxLen, p.size - w.cur)
  {
  }

  /** The finder after `k` positions of any run: GetMatches and Skip move it alike. */
  ghost function After(p: Params, c: Config, data: seq<Byte>, son: seq<UInt32>, k: nat): (r: (Finder, seq<Tree>))
    requires Setup(p, c, data, son) && k <= |data|
    ensures FinderInv(p, c, data, r.0, r.1) && r.0.window.cur == k
    decreases k
  {
    if k == 0 then
      StartInv(p, c, data, son);
      StartsAtZero(p);
      (Start(p, c, son), Leaves(c.buckets))
    else
      var (f, trees) := After(p, c, data, son, k - 1);
      InputRemains(p, f.window);
      NextKeepsInv(p, c, data, f, trees);
      (Next(p, c, data, f), TreesNext(p, c, data, f, trees))
  }

  /** A report without enough bytes ahead is empty; any other has only true matches, of exactly the
      reported length, with strictly increasing lengths and distances. */
  ghost predicate TrueReport(p: Params, c: Config, data: seq<Byte>, cur: nat, found: seq<Match>) {
    var lim := Min(p.matchMaxLen, |data| - cur);
    if lim < c.bytes then found == []
    else AllExact(data, WindowAt(p, cur), lim, found) && Increasing(found, 1, 0)
  }

  /** The window at a position, whatever its number. */
  function WindowAt(p: Params, cur: nat): View {
    View(p.cyclicSize, 0, 0, cur)
  }

  lemma ReportIsTrue(p: Params, c: Config, data: seq<Byte>, f: Finder, trees: seq<Tree>)
    requires FinderInv(p, c, data, f, trees)
    ensures TrueReport(p, c, data, f.window.cur, Report(p, c, data, f))
  {
    hide GetMatches, Buckets, HeadsNewest, Len, Increasing;
    InputRemains(p, f.window);
    if f.window.lenLimit >= c.bytes {
      GetMatchesSound(c, data, ViewOf(p, f.window), f.tables, f.window.lenLimit, trees);
    }
  }

  // ---- Numbering is invisible ----

  lemma SameNewest(data: seq<Byte>, v1: View, v2: View, b: nat, hash: int -> nat, slot: nat, ref1: UInt32, ref2: UInt32)
    requires v1.Valid() && v2.Valid() && v1.cur == v2.cur && v1.cyclicSize == v2.cyclicSize
    requires NewestAt(data, v1, b, hash, slot, ref1) && NewestAt(data, v2, b, hash, slot, ref2)
    ensures v1.InWindow(ref1) <==> v2.InWindow(ref2)
    ensures v1.InWindow(ref1) ==> v1.Delta(ref1) == v2.Delta(ref2)
  {
    hide View.Delta;
  }

  lemma SameHeadMatches(c: Config, data: seq<Byte>, v1: View, tb1: Tables, v2: View, tb2: Tables, lim: nat)
    requires HeadsSized(c, tb1) && HeadsSized(c, tb2) && v1.Valid() && v2.Valid() && c.bytes <= lim
    requires v1.cur == v2.cur && v1.cyclicSize == v2.cyclicSize
    requires HeadsNewest(c, data, v1, v1.cur, tb1) && HeadsNewest(c, data, v2, v2.cur, tb2)
    ensures HeadMatches(c, data, v1, tb1, lim) == HeadMatches(c, data, v2, tb2, lim)
  {
    hide View.Delta, H2At, H3At, Lcp;
    var slot2, slot3 := H2At(c, data, v1.cur), H3At(c, data, v1.cur);
    if c.bytes >= 3 {
      SameNewest(data, v1, v2, v1.cur, Hash2(c, data), slot2, tb1.head2[slot2], tb2.head2[slot2]);
    }
    if c.bytes == 4 {
      SameNewest(data, v1, v2, v1.cur, Hash3(c, data), slot3, tb1.head3[slot3], tb2.head3[slot3]);
    }
  }

  lemma SameTail(c: Config, data: seq<Byte>, v1: View, tb1: Tables, v2: View, tb2: Tables, lim: nat, maxLen: nat,
                 trees: seq<Tree>)
    requires Sized(c, v1, tb1) && Sized(c, v2, tb2) && maxLen < lim && v1.cur == v2.cur
    requires Buckets(c, data, v1, v1.cur, lim, tb1.heads, tb1.son, trees)
    requires Buckets(c, data, v2, v2.cur, lim, tb2.heads, tb2.son, trees)
    ensures var h := c.MainHash(data, v1.cur);
            SonAfter(c, data, v1, tb1.son, tb1.heads[h], lim, maxLen).found ==
            SonAfter(c, data, v2, tb2.son, tb2.heads[h], lim, maxLen).found
  {
    hide SonAfter, BucketOk, Config.MainHash, SearchTree;
    BucketsInsert(c, data, v1, lim, maxLen, tb1.heads, tb1.son, trees);
    BucketsInsert(c, data, v2, lim, maxLen, tb2.heads, tb2.son, trees);
  }

  /** Two finders that index the same strings under different position numbers report the same and
      go on indexing the same strings; so renumbering changes no search, ever. */
  lemma NumberingInvisible(p: Params, c: Config, data: seq<Byte>, f1: Finder, f2: Finder, trees: seq<Tree>)
    requires FinderInv(p, c, data, f1, trees) && FinderInv(p, c, data, f2, trees) && f1.window.cur == f2.window.cur
    ensures Report(p, c, data, f1) == Report(p, c, data, f2)
    ensures TreesNext(p, c, data, f1, trees) == TreesNext(p, c, data, f2, trees)
  {
    hide Inv, HeadsNewest, Buckets, HeadMatches, GetLoop, SkipLoop, SearchTree, PruneAll, Config.MainHash;
    InputRemains(p, f1.window);
    InputRemains(p, f2.window);
    if f1.window.lenLimit >= c.bytes {
      var v1, v2 := ViewOf(p, f1.window), ViewOf(p, f2.window);
      var lim := f1.window.lenLimit;
      SameHeadMatches(c, data, v1, f1.tables, v2, f2.tables, lim);
      HeadMatchesBounded(c, data, v1, f1.tables, lim);
      var cand := HeadMatches(c, data, v1, f1.tables, lim);
      if !(cand.first != [] && cand.maxLen == lim) {
        SameTail(c, data, v1, f1.tables, v2, f2.tables, lim, Threshold(c, cand.maxLen), trees);
      }
    }
  }
}
