/** The hash buckets of the binary-tree match finders: every bucket heads the tree of its strings,
    every string in the window is in its bucket or stood for by a newer one. */
module LzBuckets {
  import opened Words
  import opened LzTree
  import opened LzSon
  import opened LzHash
  import opened LzWindow

  /** The number of hashed bytes (2, 3 or 4 for Bt2, Bt3, Bt4), the crc table, the number of main
      buckets (hashMask + 1) and the search effort. */
  datatype Config = Config(bytes: nat, crc: CrcTable, buckets: nat, cutValue: nat) {
    predicate Ok() {
      2 <= bytes <= 4 && buckets > 0 && (bytes == 2 ==> buckets == 0x1_0000)
    }

    /** `hv` for the string at `i`. */
    function MainHash(data: seq<Byte>, i: int): (h: nat)
      requires Ok()
      ensures h < buckets
    {
      if bytes == 2 then Main2(At(data, i, 0), At(data, i, 1))
      else if bytes == 3 then Main3(crc, At(data, i, 0), At(data, i, 1), At(data, i, 2), buckets)
      else Main4(crc, At(data, i, 0), At(data, i, 1), At(data, i, 2), At(data, i, 3), buckets)
    }
  }

  /** Strings that agree on the hashed bytes are in the same bucket. */
  lemma SameBucket(c: Config, data: seq<Byte>, i: int, j: int, lim: nat)
    requires c.Ok() && c.bytes <= Len(data, i, j, lim)
    ensures c.MainHash(data, i) == c.MainHash(data, j)
  {
    assert At(data, i, 0) == At(data, j, 0) && At(data, i, 1) == At(data, j, 1);
  }

  /** Bucket `h` heads a search tree of strings that hash to `h`. */
  ghost predicate BucketOk(c: Config, data: seq<Byte>, v: View, b: nat, lim: nat, h: nat, ref: UInt32,
                           son: seq<UInt32>, t: Tree)
    requires c.Ok() && v.Valid() && |son| == 2 * v.cyclicSize
  {
    && Rep(son, ref, t, v) && SearchTreeOf(data, t, b, lim)
    && forall x :: x in Nodes(t) ==> c.MainHash(data, x) == h
  }

  ghost predicate Buckets(c: Config, data: seq<Byte>, v: View, b: nat, lim: nat, heads: seq<UInt32>, son: seq<UInt32>,
                          trees: seq<Tree>)
    requires c.Ok() && v.Valid() && |son| == 2 * v.cyclicSize
  {
    && |heads| == |trees| == c.buckets
    && forall h :: 0 <= h < c.buckets ==> BucketOk(c, data, v, b, lim, h, heads[h], son, trees[h])
  }

  /** A string in the tree, no older than `x`, equals it on `lim` bytes. */
  ghost predicate StoodFor(data: seq<Byte>, t: Tree, x: int, lim: nat) {
    exists y :: y in Nodes(t) && x <= y && Len(data, x, y, lim) == lim
  }

  /** Every string of bucket `h` in the window, older than `b`, is stood for in the bucket's tree. */
  ghost predicate Covers(c: Config, data: seq<Byte>, v: View, b: nat, lim: nat, h: nat, t: Tree)
    requires c.Ok()
  {
    forall x: nat :: v.cur - v.cyclicSize < x < b && c.MainHash(data, x) == h ==> StoodFor(data, t, x, lim)
  }

  // ---- Moving on ----

  lemma {:induction false} PruneNodes(t: Tree, b: int, lo: int)
    requires OlderThan(t, b)
    ensures forall x :: x in Nodes(Prune(t, lo)) <==> x in Nodes(t) && lo <= x
    decreases t
  {
    if t.Node? {
      PruneNodes(t.left, t.at, lo);
      PruneNodes(t.right, t.at, lo);
      OlderNodes(t.left, t.at);
      OlderNodes(t.right, t.at);
    }
  }

  lemma {:induction false} PruneKeepsInvariant(data: seq<Byte>, t: Tree, b: int, lim: nat, lo: int)
    requires SearchTreeOf(data, t, b, lim)
    ensures SearchTreeOf(data, Prune(t, lo), b, lim)
    decreases t
  {
    hide Leq;
    if t.Node? {
      PruneKeepsInvariant(data, t.left, t.at, lim, lo);
      PruneKeepsInvariant(data, t.right, t.at, lim, lo);
      PruneNodes(t.left, t.at, lo);
      PruneNodes(t.right, t.at, lo);
    }
  }

  lemma BucketMovesOn(c: Config, data: seq<Byte>, v: View, b: nat, lim: nat, lim': nat, h: nat, ref: UInt32,
                      son: seq<UInt32>, t: Tree)
    requires c.Ok() && v.Valid() && v.pos < MAX_VAL_FOR_NORMALIZE && |son| == 2 * v.cyclicSize && lim' <= lim
    requires BucketOk(c, data, v, b, lim, h, ref, son, t)
    ensures NextView(v).Valid()
    ensures BucketOk(c, data, NextView(v), b, lim', h, ref, son, Prune(t, v.cur + 2 - v.cyclicSize))
  {
    hide Rep, OlderThan, Distinct, Ordered, Nodes, Prune, View.Delta;
    var lo := v.cur + 2 - v.cyclicSize;
    NextViewKeeps(v);
    NextRep(v, son, ref, t, b);
    PruneKeepsInvariant(data, t, b, lim, lo);
    PruneNodes(t, b, lo);
    OrderedShorter(data, Prune(t, lo), lim, lim');
  }

  function PruneAll(trees: seq<Tree>, lo: int): (r: seq<Tree>)
    ensures |r| == |trees| && forall h :: 0 <= h < |trees| ==> r[h] == Prune(trees[h], lo)
  {
    seq(|trees|, h requires 0 <= h < |trees| => Prune(trees[h], lo))
  }

  lemma BucketsMoveOn(c: Config, data: seq<Byte>, v: View, b: nat, lim: nat, lim': nat, heads: seq<UInt32>,
                      son: seq<UInt32>, trees: seq<Tree>)
    requires c.Ok() && v.Valid() && v.pos < MAX_VAL_FOR_NORMALIZE && |son| == 2 * v.cyclicSize && lim' <= lim
    requires Buckets(c, data, v, b, lim, heads, son, trees)
    ensures NextView(v).Valid()
    ensures Buckets(c, data, NextView(v), b, lim', heads, son, PruneAll(trees, v.cur + 2 - v.cyclicSize))
  {
    hide BucketOk, Prune;
    NextViewKeeps(v);
    NextFields(v);
    forall h | 0 <= h < c.buckets
      ensures BucketOk(c, data, NextView(v), b, lim', h, heads[h], son, Prune(trees[h], v.cur + 2 - v.cyclicSize))
    {
      BucketMovesOn(c, data, v, b, lim, lim', h, heads[h], son, trees[h]);
    }
  }

  /** A string of the window is still stood for after the window has moved and the limit fallen. */
  lemma StoodForMovesOn(data: seq<Byte>, t: Tree, b: int, lo: int, x: int, lim: nat, lim': nat)
    requires OlderThan(t, b) && lo <= x && lim' <= lim && StoodFor(data, t, x, lim)
    ensures StoodFor(data, Prune(t, lo), x, lim')
  {
    hide Prune, Len, OlderThan, Nodes;
    var y :| y in Nodes(t) && x <= y && Len(data, x, y, lim) == lim;
    ShorterLimit(data, x, y, lim, lim');
    PruneNodes(t, b, lo);
    assert y in Nodes(Prune(t, lo));
  }

  // ---- Renumbering ----

  lemma BucketsRenumbered(c: Config, data: seq<Byte>, v: View, b: nat, lim: nat, sub: UInt32, heads: seq<UInt32>,
                          son: seq<UInt32>, trees: seq<Tree>)
    requires c.Ok() && v.Valid() && |son| == 2 * v.cyclicSize && sub <= v.pos - v.cyclicSize
    requires Buckets(c, data, v, b, lim, heads, son, trees)
    ensures Buckets(c, data, v.(pos := v.pos - sub), b, lim, RenumberAll(sub, heads), RenumberAll(sub, son), trees)
  {
    hide Rep, SearchTreeOf, Renumber;
    forall h | 0 <= h < c.buckets
      ensures BucketOk(c, data, v.(pos := v.pos - sub), b, lim, h, RenumberAll(sub, heads)[h], RenumberAll(sub, son),
                       trees[h])
    {
      assert BucketOk(c, data, v, b, lim, h, heads[h], son, trees[h]);
      RenumberKeepsRep(v, sub, son, heads[h], trees[h]);
    }
  }

  // ---- Inserting the current string ----

  /** The new root over the two halves of the old tree of its bucket. */
  function Inserted(c: Config, data: seq<Byte>, cur: nat, lim: nat, maxLen: nat, t: Tree): Tree
    requires 0 < lim
  {
    var s := SearchTree(data, t, cur, lim, c.cutValue, 0, 0, maxLen);
    Node(cur, s.left, s.right)
  }

  /** The son array after the search loop of the current bucket. */
  function SonAfter(c: Config, data: seq<Byte>, v: View, son: seq<UInt32>, ref: UInt32, lim: nat,
                    maxLen: nat): (r: Searched)
    requires v.Valid() && |son| == 2 * v.cyclicSize && maxLen < lim
    ensures |r.son| == |son|
  {
    GetLoop(data, v, son, 2 * v.cyclicPos + 1, 2 * v.cyclicPos, ref, c.cutValue, 0, 0, lim, maxLen)
  }

  /** In the current bucket: the tree becomes `Inserted`, the matches are those of the tree search. */
  lemma BucketInserts(c: Config, data: seq<Byte>, v: View, lim: nat, maxLen: nat, h: nat, ref: UInt32,
                      son: seq<UInt32>, t: Tree)
    requires c.Ok() && v.Valid() && |son| == 2 * v.cyclicSize && maxLen < lim && h == c.MainHash(data, v.cur)
    requires BucketOk(c, data, v, v.cur, lim, h, ref, son, t)
    ensures var r := SonAfter(c, data, v, son, ref, lim, maxLen);
            && BucketOk(c, data, v, v.cur + 1, lim, h, v.pos, r.son, Inserted(c, data, v.cur, lim, maxLen, t))
            && r.found == SearchTree(data, t, v.cur, lim, c.cutValue, 0, 0, maxLen).found
            && OtherCells(son, r.son, t, 2 * v.cyclicPos + 1, 2 * v.cyclicPos, v)
  {
    hide GetLoop, SearchTree, Rep, OlderThan, Distinct, Ordered, OtherCells, View.Delta, Config.MainHash;
    DanglingAtRoot(son, ref, t, v);
    LoopIsSearch(data, v, son, 2 * v.cyclicPos + 1, 2 * v.cyclicPos, v.cur, v.cur, ref, t, v.cur, c.cutValue, 0, 0,
                 lim, maxLen);
    InsertKeepsInvariant(data, t, v.cur, lim, c.cutValue, maxLen);
    var r := SonAfter(c, data, v, son, ref, lim, maxLen);
    var s := SearchTree(data, t, v.cur, lim, c.cutValue, 0, 0, maxLen);
    CurrentRef(v);
    RepNode(r.son, v.pos, v.cur, s.left, s.right, v);
  }

  lemma CurrentRef(v: View)
    requires v.Valid()
    ensures v.InWindow(v.pos) && v.Delta(v.pos) == 0 && v.Pair(v.cur) == 2 * v.cyclicPos
    ensures CellOf(2 * v.cyclicPos, v.cur, v) && CellOf(2 * v.cyclicPos + 1, v.cur, v)
  {
  }

  /** Any other bucket is not touched. */
  lemma BucketUntouched(c: Config, data: seq<Byte>, v: View, lim: nat, h: nat, ref: UInt32, son: seq<UInt32>,
                        son': seq<UInt32>, u: Tree, t: Tree)
    requires c.Ok() && v.Valid() && |son| == |son'| == 2 * v.cyclicSize
    requires BucketOk(c, data, v, v.cur, lim, h, ref, son, u)
    requires forall x :: x in Nodes(t) ==> c.MainHash(data, x) != h
    requires OtherCells(son, son', t, 2 * v.cyclicPos + 1, 2 * v.cyclicPos, v)
    ensures BucketOk(c, data, v, v.cur + 1, lim, h, ref, son', u)
  {
    hide Rep, Distinct, Ordered, OtherCells, Config.MainHash, OlderThan;
    CurrentRef(v);
    OlderNodes(u, v.cur);
    OlderWeaken(u, v.cur, v.cur + 1);
    RepBeside(son, son', ref, u, t, 2 * v.cyclicPos + 1, 2 * v.cyclicPos, v.cur, v.cur, v);
  }

  /** Inserting the current string keeps every bucket in order, for any cutValue. */
  lemma BucketsInsert(c: Config, data: seq<Byte>, v: View, lim: nat, maxLen: nat, heads: seq<UInt32>, son: seq<UInt32>,
                      trees: seq<Tree>)
    requires c.Ok() && v.Valid() && |son| == 2 * v.cyclicSize && maxLen < lim
    requires Buckets(c, data, v, v.cur, lim, heads, son, trees)
    ensures var h0 := c.MainHash(data, v.cur);
            var r := SonAfter(c, data, v, son, heads[h0], lim, maxLen);
            && Buckets(c, data, v, v.cur + 1, lim, heads[h0 := v.pos], r.son,
                       trees[h0 := Inserted(c, data, v.cur, lim, maxLen, trees[h0])])
            && r.found == SearchTree(data, trees[h0], v.cur, lim, c.cutValue, 0, 0, maxLen).found
  {
    hide Inserted, SonAfter, OtherCells, Config.MainHash, SearchTree, Rep, SearchTreeOf;
    var h0 := c.MainHash(data, v.cur);
    assert BucketOk(c, data, v, v.cur, lim, h0, heads[h0], son, trees[h0]);
    BucketInserts(c, data, v, lim, maxLen, h0, heads[h0], son, trees[h0]);
    var son' := SonAfter(c, data, v, son, heads[h0], lim, maxLen).son;
    forall h | 0 <= h < c.buckets && h != h0
      ensures BucketOk(c, data, v, v.cur + 1, lim, h, heads[h], son', trees[h])
    {
      assert BucketOk(c, data, v, v.cur, lim, h, heads[h], son, trees[h]);
      BucketUntouched(c, data, v, lim, h, heads[h], son, son', trees[h], trees[h0]);
    }
  }

  // ---- Nothing is lost, and the tree search is the naive search over the window ----

  /** The strings of bucket `h` from `lo` on that are older than `b`, newest first. */
  function Mates(c: Config, data: seq<Byte>, b: nat, lo: int, h: nat): (xs: seq<nat>)
    requires c.Ok()
    ensures |xs| <= b && (b >= lo ==> |xs| <= b - lo)
  {
    if b == 0 || b - 1 < lo then []
    else (if c.MainHash(data, b - 1) == h then [b - 1] else []) + Mates(c, data, b - 1, lo, h)
  }

  lemma {:induction false} MatesAre(c: Config, data: seq<Byte>, b: nat, lo: int, h: nat)
    requires c.Ok()
    ensures forall x: nat :: x in Mates(c, data, b, lo, h) <==> lo <= x < b && c.MainHash(data, x) == h
    decreases b
  {
    hide Config.MainHash;
    if b > 0 && lo <= b - 1 {
      MatesAre(c, data, b - 1, lo, h);
    }
  }

  lemma {:induction false} MatesGrow(c: Config, data: seq<Byte>, a: nat, b: nat, lo: int, h: nat)
    requires c.Ok() && a < b && lo <= a && c.MainHash(data, a) == h
    ensures |Mates(c, data, a, lo, h)| < |Mates(c, data, b, lo, h)|
    decreases b
  {
    hide Config.MainHash;
    if a < b - 1 {
      MatesGrow(c, data, a, b - 1, lo, h);
    }
  }

  /** A tree is no higher than its bucket has strings in the window. */
  lemma {:induction false} HeightBound(c: Config, data: seq<Byte>, t: Tree, b: nat, lo: int, h: nat)
    requires c.Ok() && OlderThan(t, b) && forall x :: x in Nodes(t) ==> lo <= x && c.MainHash(data, x) == h
    ensures Height(t) <= |Mates(c, data, b, lo, h)|
    decreases t
  {
    hide Config.MainHash, Mates;
    if t.Node? {
      assert t.at in Nodes(t) && Nodes(t.left) <= Nodes(t) && Nodes(t.right) <= Nodes(t);
      HeightBound(c, data, t.left, t.at, lo, h);
      HeightBound(c, data, t.right, t.at, lo, h);
      MatesGrow(c, data, t.at, b, lo, h);
    }
  }

  lemma EqualTransitive(data: seq<Byte>, x: int, y: int, z: int, lim: nat)
    requires Len(data, x, y, lim) == lim
    ensures Len(data, x, z, lim) == Len(data, y, z, lim)
  {
    hide Lcp;
    LenIs(data, x, z, lim, Len(data, y, z, lim));
  }

  /** A string stood for before is stood for after, if need be by the current string. */
  lemma StillStoodFor(c: Config, data: seq<Byte>, cur: nat, lim: nat, maxLen: nat, t: Tree, x: int)
    requires 0 < lim && OlderThan(t, cur) && Ordered(data, t, lim) && Height(t) <= c.cutValue
    requires StoodFor(data, t, x, lim)
    ensures StoodFor(data, Inserted(c, data, cur, lim, maxLen, t), x, lim)
  {
    hide SearchTree, Len, Ordered;
    var y :| y in Nodes(t) && x <= y && Len(data, x, y, lim) == lim;
    NearAtStart(data, t, cur, lim);
    SplitKeepsNodes(data, t, cur, lim, c.cutValue, 0, 0, maxLen);
    OlderNodes(t, cur);
    EqualTransitive(data, x, y, cur, lim);
    var t' := Inserted(c, data, cur, lim, maxLen, t);
    assert y in Nodes(t') || cur in Nodes(t');
  }

  /** When the tree is no higher than cutValue, the insertion keeps every string of the bucket that is
      in the window, the current one included, in the tree or stood for. */
  lemma CoversInsert(c: Config, data: seq<Byte>, v: View, lim: nat, maxLen: nat, t: Tree)
    requires c.Ok() && v.Valid() && 0 < lim && SearchTreeOf(data, t, v.cur, lim) && Height(t) <= c.cutValue
    requires Covers(c, data, v, v.cur, lim, c.MainHash(data, v.cur), t)
    ensures Covers(c, data, v, v.cur + 1, lim, c.MainHash(data, v.cur), Inserted(c, data, v.cur, lim, maxLen, t))
  {
    hide Config.MainHash, Distinct, OlderThan, Ordered, StoodFor, Inserted, Height;
    CurrentStoodFor(c, data, v.cur, lim, maxLen, t);
    forall x: nat | v.cur - v.cyclicSize < x < v.cur && c.MainHash(data, x) == c.MainHash(data, v.cur)
      ensures StoodFor(data, Inserted(c, data, v.cur, lim, maxLen, t), x, lim)
    {
      StillStoodFor(c, data, v.cur, lim, maxLen, t, x);
    }
  }

  lemma CurrentStoodFor(c: Config, data: seq<Byte>, cur: nat, lim: nat, maxLen: nat, t: Tree)
    requires 0 < lim
    ensures StoodFor(data, Inserted(c, data, cur, lim, maxLen, t), cur, lim)
  {
    hide SearchTree;
    LenIs(data, cur, cur, lim, lim);
    assert cur in Nodes(Inserted(c, data, cur, lim, maxLen, t));
  }

  /** The candidates of the naive search: every earlier string of the window. */
  function WindowSet(v: View): set<nat> {
    set x: nat | x < v.cur && Reaches(v, x)
  }

  predicate Reaches(v: View, x: int) {
    v.cur - v.cyclicSize < x
  }

  /** When the tree is no higher than cutValue and stands for its bucket, the tree search reports
      exactly what comparing with every earlier position of the window reports, for lengths the
      bucket hash can decide. */
  lemma FoundIsNaive(c: Config, data: seq<Byte>, v: View, lim: nat, maxLen: nat, heads: seq<UInt32>, son: seq<UInt32>,
                     trees: seq<Tree>)
    requires c.Ok() && v.Valid() && |son| == 2 * v.cyclicSize && c.bytes <= maxLen + 1 && maxLen < lim
    requires Buckets(c, data, v, v.cur, lim, heads, son, trees)
    requires Unlost(c, data, v, lim, trees)
    ensures SonAfter(c, data, v, son, heads[c.MainHash(data, v.cur)], lim, maxLen).found ==
            Scan(data, WindowSet(v), v.cur, v.cur, lim, maxLen)
  {
    hide SonAfter, Config.MainHash, Rep, Distinct, OlderThan, Ordered, Len, Scan, SearchTree, Nodes, Height;
    var h0 := c.MainHash(data, v.cur);
    var t := trees[h0];
    assert BucketOk(c, data, v, v.cur, lim, h0, heads[h0], son, t);
    BucketInserts(c, data, v, lim, maxLen, h0, heads[h0], son, t);
    NearAtStart(data, t, v.cur, lim);
    FoundIsScan(data, t, v.cur, v.cur, lim, c.cutValue, 0, 0, maxLen);
    RepInWindow(son, heads[h0], t, v);
    OlderNodes(t, v.cur);
    forall x | x in WindowSet(v) && x < v.cur && maxLen < Len(data, x, v.cur, lim)
      ensures Represented(data, Nodes(t), x, v.cur, v.cur, lim)
    {
      SameBucket(c, data, x, v.cur, lim);
      assert StoodFor(data, t, x, lim);
      var y :| y in Nodes(t) && x <= y && Len(data, x, y, lim) == lim;
      EqualTransitive(data, x, y, v.cur, lim);
    }
    ScanRepresented(data, Nodes(t), WindowSet(v), v.cur, v.cur, lim, maxLen);
  }

  /** The current bucket has lost no string and its search will not be cut short. */
  ghost predicate Unlost(c: Config, data: seq<Byte>, v: View, lim: nat, trees: seq<Tree>)
    requires c.Ok() && |trees| == c.buckets
  {
    var h := c.MainHash(data, v.cur);
    Covers(c, data, v, v.cur, lim, h, trees[h]) && Height(trees[h]) <= c.cutValue
  }
}
