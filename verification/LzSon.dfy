/** The cyclic `son` array of the match finder: how it represents trees, and the loops that
    rewrite it. References are positions in 32-bit arithmetic; everything is decided by the
    distance of a reference from the current position. */
module LzSon {
  import opened Words
  import opened LzTree

  const EMPTY: UInt32 := 0

  /** The window as the search loops get it: its size, the current slot, the current position
      and the index of the current byte. */
  datatype View = View(cyclicSize: nat, cyclicPos: nat, pos: UInt32, cur: nat) {

    /** Position 0, the empty reference, is out of the window. */
    predicate Valid() {
      cyclicPos < cyclicSize <= pos
    }

    function Delta(ref: UInt32): UInt32 {
      (pos - ref) % 0x1_0000_0000
    }

    predicate InWindow(ref: UInt32) {
      Delta(ref) < cyclicSize
    }

    /** The slot `delta` positions back. */
    function Slot(delta: int): (slot: nat)
      requires Valid() && 0 <= delta < cyclicSize
      ensures slot < cyclicSize
    {
      cyclicPos - delta + if delta > cyclicPos then cyclicSize else 0
    }

    /** The index of the pair of sons of the node at byte index `at`. */
    function Pair(at: int): (p: nat)
      requires Valid() && cur - cyclicSize < at <= cur
      ensures p + 1 < 2 * cyclicSize
    {
      2 * Slot(cur - at)
    }
  }

  lemma PairsDisjoint(v: View, a: int, b: int)
    requires v.Valid() && v.cur - v.cyclicSize < a <= v.cur && v.cur - v.cyclicSize < b <= v.cur
    requires a != b
    ensures v.Pair(a) / 2 != v.Pair(b) / 2
  {
  }

  /** `ref` and the cells reachable from it represent `t`. References out of the window are empty;
      none points ahead of the current position. */
  predicate Rep(son: seq<UInt32>, ref: UInt32, t: Tree, v: View)
    requires v.Valid() && |son| == 2 * v.cyclicSize
    decreases t
  {
    if t.Leaf? then !v.InWindow(ref) && ref <= v.pos
    else
      && v.InWindow(ref) && t.at == v.cur - v.Delta(ref)
      && Rep(son, son[v.Pair(t.at)], t.left, v)
      && Rep(son, son[v.Pair(t.at) + 1], t.right, v)
  }

  lemma EmptyRep(son: seq<UInt32>, v: View)
    requires v.Valid() && |son| == 2 * v.cyclicSize
    ensures Rep(son, EMPTY, Leaf, v)
  {
  }

  lemma RepNode(son: seq<UInt32>, ref: UInt32, at: nat, left: Tree, right: Tree, v: View)
    requires v.Valid() && |son| == 2 * v.cyclicSize
    requires v.InWindow(ref) && at == v.cur - v.Delta(ref)
    requires Rep(son, son[v.Pair(at)], left, v) && Rep(son, son[v.Pair(at) + 1], right, v)
    ensures Rep(son, ref, Node(at, left, right), v)
  {
  }

  lemma RepChildren(son: seq<UInt32>, ref: UInt32, t: Tree, v: View)
    requires v.Valid() && |son| == 2 * v.cyclicSize && Rep(son, ref, t, v) && t.Node?
    ensures v.InWindow(ref) && t.at == v.cur - v.Delta(ref)
    ensures Rep(son, son[v.Pair(t.at)], t.left, v) && Rep(son, son[v.Pair(t.at) + 1], t.right, v)
  {
  }

  /** All nodes of a represented tree are in the window. */
  lemma {:induction false} RepInWindow(son: seq<UInt32>, ref: UInt32, t: Tree, v: View)
    requires v.Valid() && |son| == 2 * v.cyclicSize && Rep(son, ref, t, v)
    ensures forall x :: x in Nodes(t) ==> v.cur - v.cyclicSize < x <= v.cur
    decreases t
  {
    if t.Node? {
      RepInWindow(son, son[v.Pair(t.at)], t.left, v);
      RepInWindow(son, son[v.Pair(t.at) + 1], t.right, v);
    }
  }

  /** The cells of the nodes of `t` are the same in both arrays. */
  ghost predicate SameCells(son: seq<UInt32>, son': seq<UInt32>, t: Tree, v: View)
    requires v.Valid() && |son| == |son'| == 2 * v.cyclicSize
  {
    forall x :: x in Nodes(t) && v.cur - v.cyclicSize < x <= v.cur ==>
      son'[v.Pair(x)] == son[v.Pair(x)] && son'[v.Pair(x) + 1] == son[v.Pair(x) + 1]
  }

  lemma {:induction false} RepFrame(son: seq<UInt32>, son': seq<UInt32>, ref: UInt32, t: Tree, v: View)
    requires v.Valid() && |son| == |son'| == 2 * v.cyclicSize
    requires Rep(son, ref, t, v) && SameCells(son, son', t, v)
    ensures Rep(son', ref, t, v)
    decreases t
  {
    hide SameCells;
    if t.Node? {
      SameCellsBelow(son, son', t, v);
      RepFrame(son, son', son[v.Pair(t.at)], t.left, v);
      RepFrame(son, son', son[v.Pair(t.at) + 1], t.right, v);
    }
  }

  lemma SameCellsBelow(son: seq<UInt32>, son': seq<UInt32>, t: Tree, v: View)
    requires v.Valid() && |son| == |son'| == 2 * v.cyclicSize
    requires t.Node? && v.cur - v.cyclicSize < t.at <= v.cur && SameCells(son, son', t, v)
    ensures SameCells(son, son', t.left, v) && SameCells(son, son', t.right, v)
    ensures son'[v.Pair(t.at)] == son[v.Pair(t.at)] && son'[v.Pair(t.at) + 1] == son[v.Pair(t.at) + 1]
  {
    hide View.Pair;
  }

  // ---- The loops on the son array ----

  datatype Searched = Searched(son: seq<UInt32>, found: seq<Match>)

  /** The loop of GetMatchesSpec1. */
  function GetLoop(data: seq<Byte>, v: View, son: seq<UInt32>, ptr0: nat, ptr1: nat, curMatch: UInt32,
                   cut: nat, len0: nat, len1: nat, lim: nat, maxLen: nat): (r: Searched)
    requires v.Valid() && |son| == 2 * v.cyclicSize && ptr0 < |son| && ptr1 < |son|
    requires len0 < lim && len1 < lim && maxLen < lim
    ensures |r.son| == |son|
    decreases cut
  {
    if cut == 0 || !v.InWindow(curMatch) then
      Searched(son[ptr0 := EMPTY][ptr1 := EMPTY], [])
    else
      var delta := v.Delta(curMatch);
      var pb := v.cur - delta;
      var pair := v.Pair(pb);
      var start := Min(len0, len1);
      var len := Lcp(data, pb, v.cur, start, lim);
      var found := if start < len && maxLen < len then [Match(len, delta - 1)] else [];
      if len == lim then
        var son1 := son[ptr1 := son[pair]];
        Searched(son1[ptr0 := son1[pair + 1]], found)
      else
        var best := if start < len && maxLen < len then len else maxLen;
        var rest :=
          if At(data, pb, len) < At(data, v.cur, len) then
            var son1 := son[ptr1 := curMatch];
            GetLoop(data, v, son1, ptr0, pair + 1, son1[pair + 1], cut - 1, len0, len, lim, best)
          else
            var son1 := son[ptr0 := curMatch];
            GetLoop(data, v, son1, pair, ptr1, son1[pair], cut - 1, len, len1, lim, best);
        Searched(rest.son, found + rest.found)
  }

  /** The loop of SkipMatchesSpec. */
  function SkipLoop(data: seq<Byte>, v: View, son: seq<UInt32>, ptr0: nat, ptr1: nat, curMatch: UInt32,
                    cut: nat, len0: nat, len1: nat, lim: nat): (r: seq<UInt32>)
    requires v.Valid() && |son| == 2 * v.cyclicSize && ptr0 < |son| && ptr1 < |son|
    requires len0 < lim && len1 < lim
    ensures |r| == |son|
    decreases cut
  {
    if cut == 0 || !v.InWindow(curMatch) then
      son[ptr0 := EMPTY][ptr1 := EMPTY]
    else
      var pb := v.cur - v.Delta(curMatch);
      var pair := v.Pair(pb);
      var len := Lcp(data, pb, v.cur, Min(len0, len1), lim);
      if len == lim then
        var son1 := son[ptr1 := son[pair]];
        son1[ptr0 := son1[pair + 1]]
      else if At(data, pb, len) < At(data, v.cur, len) then
        var son1 := son[ptr1 := curMatch];
        SkipLoop(data, v, son1, ptr0, pair + 1, son1[pair + 1], cut - 1, len0, len, lim)
      else
        var son1 := son[ptr0 := curMatch];
        SkipLoop(data, v, son1, pair, ptr1, son1[pair], cut - 1, len, len1, lim)
  }

  /** From every state, searching and skipping leave the same son array. */
  lemma {:induction false} SkipIsGet(data: seq<Byte>, v: View, son: seq<UInt32>, ptr0: nat, ptr1: nat, curMatch: UInt32,
                                     cut: nat, len0: nat, len1: nat, lim: nat, maxLen: nat)
    requires v.Valid() && |son| == 2 * v.cyclicSize && ptr0 < |son| && ptr1 < |son|
    requires len0 < lim && len1 < lim && maxLen < lim
    ensures SkipLoop(data, v, son, ptr0, ptr1, curMatch, cut, len0, len1, lim) ==
            GetLoop(data, v, son, ptr0, ptr1, curMatch, cut, len0, len1, lim, maxLen).son
    decreases cut
  {
    hide Lcp, At, View.Pair, View.Delta;
    if cut > 0 && v.InWindow(curMatch) {
      var pb := v.cur - v.Delta(curMatch);
      var pair := v.Pair(pb);
      var start := Min(len0, len1);
      var len := Lcp(data, pb, v.cur, start, lim);
      var best := if start < len && maxLen < len then len else maxLen;
      if len < lim {
        if At(data, pb, len) < At(data, v.cur, len) {
          var son1 := son[ptr1 := curMatch];
          SkipIsGet(data, v, son1, ptr0, pair + 1, son1[pair + 1], cut - 1, len0, len, lim, best);
        } else {
          var son1 := son[ptr0 := curMatch];
          SkipIsGet(data, v, son1, pair, ptr1, son1[pair], cut - 1, len, len1, lim, best);
        }
      }
    }
  }

  // ---- The loops perform the tree insertion ----

  /** Cell `k` belongs to the pair of the node at `q`. */
  predicate CellOf(k: int, q: int, v: View)
    requires v.Valid()
  {
    v.cur - v.cyclicSize < q <= v.cur && (k == v.Pair(q) || k == v.Pair(q) + 1)
  }

  lemma CellsDiffer(k: int, q: int, x: int, v: View)
    requires v.Valid() && CellOf(k, q, v) && q != x && v.cur - v.cyclicSize < x <= v.cur
    ensures k != v.Pair(x) && k != v.Pair(x) + 1
  {
    PairsDisjoint(v, q, x);
  }

  /** Writing a cell of a node newer than a tree leaves the tree alone. */
  lemma RepWrite(son: seq<UInt32>, k: nat, ref': UInt32, q: int, ref: UInt32, t: Tree, b: int, v: View)
    requires v.Valid() && |son| == 2 * v.cyclicSize && k < |son|
    requires Rep(son, ref, t, v) && OlderThan(t, b) && b <= q && CellOf(k, q, v)
    ensures Rep(son[k := ref'], ref, t, v)
  {
    hide Rep, View.Pair, CellOf;
    OlderNodes(t, b);
    var son' := son[k := ref'];
    forall x | x in Nodes(t) && v.cur - v.cyclicSize < x <= v.cur
      ensures son'[v.Pair(x)] == son[v.Pair(x)] && son'[v.Pair(x) + 1] == son[v.Pair(x) + 1]
    {
      CellsDiffer(k, q, x, v);
    }
    RepFrame(son, son', ref, t, v);
  }

  /** Only the cells `ptr0`, `ptr1` and those of the nodes of `t` may differ. */
  ghost predicate OtherCells(son: seq<UInt32>, son': seq<UInt32>, t: Tree, ptr0: nat, ptr1: nat, v: View)
    requires v.Valid() && |son| == |son'| == 2 * v.cyclicSize
  {
    forall x :: v.cur - v.cyclicSize < x <= v.cur && x !in Nodes(t) ==>
      && (v.Pair(x) != ptr0 && v.Pair(x) != ptr1 ==> son'[v.Pair(x)] == son[v.Pair(x)])
      && (v.Pair(x) + 1 != ptr0 && v.Pair(x) + 1 != ptr1 ==> son'[v.Pair(x) + 1] == son[v.Pair(x) + 1])
  }

  /** A tree disjoint from `t` and older than the written cells survives. */
  lemma RepBeside(son: seq<UInt32>, son': seq<UInt32>, ref: UInt32, u: Tree, t: Tree, ptr0: nat, ptr1: nat, q0: int,
                  q1: int, v: View)
    requires v.Valid() && |son| == |son'| == 2 * v.cyclicSize
    requires Rep(son, ref, u, v) && Nodes(u) !! Nodes(t) && q0 !in Nodes(u) && q1 !in Nodes(u)
    requires CellOf(ptr0, q0, v) && CellOf(ptr1, q1, v) && OtherCells(son, son', t, ptr0, ptr1, v)
    ensures Rep(son', ref, u, v)
  {
    hide Rep, View.Pair, CellOf;
    forall x | x in Nodes(u) && v.cur - v.cyclicSize < x <= v.cur
      ensures son'[v.Pair(x)] == son[v.Pair(x)] && son'[v.Pair(x) + 1] == son[v.Pair(x) + 1]
    {
      CellsDiffer(ptr0, q0, x, v);
      CellsDiffer(ptr1, q1, x, v);
    }
    RepFrame(son, son', ref, u, v);
  }

  /** The two dangling cells and the tree that is still to be split between them. */
  ghost predicate Dangling(son: seq<UInt32>, ptr0: nat, ptr1: nat, q0: int, q1: int, curMatch: UInt32, t: Tree, b: int,
                           v: View)
    requires v.Valid() && |son| == 2 * v.cyclicSize
  {
    && Rep(son, curMatch, t, v) && OlderThan(t, b) && Distinct(t)
    && b <= q0 && b <= q1 && CellOf(ptr0, q0, v) && CellOf(ptr1, q1, v) && ptr0 != ptr1
  }

  /** What the loop leaves: the two halves hang from the two cells, nothing else changed. */
  ghost predicate HangsSplit(son: seq<UInt32>, son': seq<UInt32>, ptr0: nat, ptr1: nat, t: Tree, left: Tree,
                             right: Tree, v: View)
    requires v.Valid() && |son| == |son'| == 2 * v.cyclicSize && ptr0 < |son| && ptr1 < |son|
  {
    && Rep(son', son'[ptr1], left, v) && Rep(son', son'[ptr0], right, v)
    && OtherCells(son, son', t, ptr0, ptr1, v)
  }

  /** At the start the new node's own pair dangles. */
  lemma DanglingAtRoot(son: seq<UInt32>, curMatch: UInt32, t: Tree, v: View)
    requires v.Valid() && |son| == 2 * v.cyclicSize
    requires Rep(son, curMatch, t, v) && OlderThan(t, v.cur) && Distinct(t)
    ensures Dangling(son, 2 * v.cyclicPos + 1, 2 * v.cyclicPos, v.cur, v.cur, curMatch, t, v.cur, v)
  {
  }

  lemma LoopEnds(son: seq<UInt32>, ptr0: nat, ptr1: nat, q0: int, q1: int, curMatch: UInt32, t: Tree, b: int, v: View)
    requires v.Valid() && |son| == 2 * v.cyclicSize && ptr0 < |son| && ptr1 < |son|
    requires Dangling(son, ptr0, ptr1, q0, q1, curMatch, t, b, v)
    ensures HangsSplit(son, son[ptr0 := EMPTY][ptr1 := EMPTY], ptr0, ptr1, t, Leaf, Leaf, v)
  {
  }

  lemma LoopReplaces(son: seq<UInt32>, ptr0: nat, ptr1: nat, q0: int, q1: int, curMatch: UInt32, t: Tree, b: int,
                     v: View)
    requires v.Valid() && |son| == 2 * v.cyclicSize && ptr0 < |son| && ptr1 < |son|
    requires Dangling(son, ptr0, ptr1, q0, q1, curMatch, t, b, v) && t.Node?
    ensures var pair := v.Pair(t.at);
            var son1 := son[ptr1 := son[pair]];
            HangsSplit(son, son1[ptr0 := son1[pair + 1]], ptr0, ptr1, t, t.left, t.right, v)
  {
    hide View.Pair, OlderThan, CellOf;
    var pair := v.Pair(t.at);
    ChildrenOlder(t, b);
    CellsDiffer(ptr1, q1, t.at, v);
    var son1 := son[ptr1 := son[pair]];
    RepWrite(son, ptr1, son[pair], q1, son[pair], t.left, b, v);
    RepWrite(son, ptr1, son[pair], q1, son[pair + 1], t.right, b, v);
    RepWrite(son1, ptr0, son1[pair + 1], q0, son[pair], t.left, b, v);
    RepWrite(son1, ptr0, son1[pair + 1], q0, son[pair + 1], t.right, b, v);
  }

  lemma ChildrenOlder(t: Tree, b: int)
    requires t.Node? && OlderThan(t, b)
    ensures t.at < b && OlderThan(t.left, t.at) && OlderThan(t.right, t.at)
    ensures OlderThan(t.left, b) && OlderThan(t.right, b)
    ensures t.at !in Nodes(t.left) && t.at !in Nodes(t.right)
  {
    OlderWeaken(t.left, t.at, b);
    OlderWeaken(t.right, t.at, b);
    OlderNodes(t.left, t.at);
    OlderNodes(t.right, t.at);
  }

  /** The string of the root is smaller: it goes to the left half, its right subtree is split next. */
  lemma LoopGoesRight(son: seq<UInt32>, ptr0: nat, ptr1: nat, q0: int, q1: int, curMatch: UInt32, t: Tree, b: int,
                      v: View)
    requires v.Valid() && |son| == 2 * v.cyclicSize && ptr0 < |son| && ptr1 < |son|
    requires Dangling(son, ptr0, ptr1, q0, q1, curMatch, t, b, v) && t.Node?
    ensures var son1 := son[ptr1 := curMatch]; var next := v.Pair(t.at) + 1;
            && son1[next] == son[next]
            && Dangling(son1, ptr0, next, q0, t.at, son1[next], t.right, t.at, v)
  {
    hide View.Pair, View.Delta, OlderThan, Rep, Nodes;
    RepChildren(son, curMatch, t, v);
    ChildrenOlder(t, b);
    CellsDiffer(ptr0, q0, t.at, v);
    CellsDiffer(ptr1, q1, t.at, v);
    RepWrite(son, ptr1, curMatch, q1, son[v.Pair(t.at) + 1], t.right, b, v);
  }

  /** Frames compose: one write, then a split below. */
  lemma OtherCellsCompose(son: seq<UInt32>, son': seq<UInt32>, ptr0: nat, ptr1: nat, written: nat, ref: UInt32,
                          next: nat, t: Tree, child: Tree, v: View)
    requires v.Valid() && |son| == |son'| == 2 * v.cyclicSize && ptr0 < |son| && ptr1 < |son|
    requires t.Node? && CellOf(next, t.at, v) && (child == t.left || child == t.right)
    requires (written == ptr1 && OtherCells(son[ptr1 := ref], son', child, ptr0, next, v))
             || (written == ptr0 && OtherCells(son[ptr0 := ref], son', child, next, ptr1, v))
    ensures OtherCells(son, son', t, ptr0, ptr1, v)
  {
    hide View.Pair;
    forall x | v.cur - v.cyclicSize < x <= v.cur && x !in Nodes(t)
      ensures v.Pair(x) != ptr0 && v.Pair(x) != ptr1 ==> son'[v.Pair(x)] == son[v.Pair(x)]
      ensures v.Pair(x) + 1 != ptr0 && v.Pair(x) + 1 != ptr1 ==> son'[v.Pair(x) + 1] == son[v.Pair(x) + 1]
    {
      CellsDiffer(next, t.at, x, v);
    }
  }

  lemma HangsRight(son: seq<UInt32>, son': seq<UInt32>, ptr0: nat, ptr1: nat, q0: int, q1: int, curMatch: UInt32,
                   t: Tree, b: int, left: Tree, right: Tree, v: View)
    requires v.Valid() && |son| == |son'| == 2 * v.cyclicSize && ptr0 < |son| && ptr1 < |son|
    requires Dangling(son, ptr0, ptr1, q0, q1, curMatch, t, b, v) && t.Node?
    requires HangsSplit(son[ptr1 := curMatch], son', ptr0, v.Pair(t.at) + 1, t.right, left, right, v)
    ensures HangsSplit(son, son', ptr0, ptr1, t, Node(t.at, t.left, left), right, v)
  {
    hide View.Pair, View.Delta, OlderThan, Rep, Nodes;
    RepChildren(son, curMatch, t, v);
    var son1 := son[ptr1 := curMatch];
    var pair := v.Pair(t.at);
    ChildrenOlder(t, b);
    OlderNodes(t.right, t.at);
    OlderNodes(t.left, t.at);
    CellsDiffer(ptr0, q0, t.at, v);
    CellsDiffer(ptr1, q1, t.at, v);
    CellsDiffer(pair + 1, t.at, q1, v);
    RepWrite(son, ptr1, curMatch, q1, son[pair], t.left, b, v);
    RepBeside(son1, son', son[pair], t.left, t.right, ptr0, pair + 1, q0, t.at, v);
    assert son'[pair] == son[pair];
    assert son'[ptr1] == curMatch;
    RepNode(son', curMatch, t.at, t.left, left, v);
    OtherCellsCompose(son, son', ptr0, ptr1, ptr1, curMatch, pair + 1, t, t.right, v);
  }

  /** The string of the root is not smaller: it goes to the right half, its left subtree is split next. */
  lemma LoopGoesLeft(son: seq<UInt32>, ptr0: nat, ptr1: nat, q0: int, q1: int, curMatch: UInt32, t: Tree, b: int,
                     v: View)
    requires v.Valid() && |son| == 2 * v.cyclicSize && ptr0 < |son| && ptr1 < |son|
    requires Dangling(son, ptr0, ptr1, q0, q1, curMatch, t, b, v) && t.Node?
    ensures var son1 := son[ptr0 := curMatch]; var next := v.Pair(t.at);
            && son1[next] == son[next]
            && Dangling(son1, next, ptr1, t.at, q1, son1[next], t.left, t.at, v)
  {
    hide View.Pair, View.Delta, OlderThan, Rep, Nodes;
    RepChildren(son, curMatch, t, v);
    ChildrenOlder(t, b);
    CellsDiffer(ptr0, q0, t.at, v);
    CellsDiffer(ptr1, q1, t.at, v);
    RepWrite(son, ptr0, curMatch, q0, son[v.Pair(t.at)], t.left, b, v);
  }

  lemma HangsLeft(son: seq<UInt32>, son': seq<UInt32>, ptr0: nat, ptr1: nat, q0: int, q1: int, curMatch: UInt32,
                  t: Tree, b: int, left: Tree, right: Tree, v: View)
    requires v.Valid() && |son| == |son'| == 2 * v.cyclicSize && ptr0 < |son| && ptr1 < |son|
    requires Dangling(son, ptr0, ptr1, q0, q1, curMatch, t, b, v) && t.Node?
    requires HangsSplit(son[ptr0 := curMatch], son', v.Pair(t.at), ptr1, t.left, left, right, v)
    ensures HangsSplit(son, son', ptr0, ptr1, t, left, Node(t.at, right, t.right), v)
  {
    hide View.Pair, View.Delta, OlderThan, Rep, Nodes;
    RepChildren(son, curMatch, t, v);
    var son1 := son[ptr0 := curMatch];
    var pair := v.Pair(t.at);
    ChildrenOlder(t, b);
    OlderNodes(t.right, t.at);
    OlderNodes(t.left, t.at);
    CellsDiffer(ptr0, q0, t.at, v);
    CellsDiffer(ptr1, q1, t.at, v);
    CellsDiffer(pair, t.at, q0, v);
    RepWrite(son, ptr0, curMatch, q0, son[pair + 1], t.right, b, v);
    RepBeside(son1, son', son[pair + 1], t.right, t.left, pair, ptr1, t.at, q1, v);
    assert son'[pair + 1] == son[pair + 1];
    assert son'[ptr0] == curMatch;
    RepNode(son', curMatch, t.at, right, t.right, v);
    OtherCellsCompose(son, son', ptr0, ptr1, ptr0, curMatch, pair, t, t.left, v);
  }

  /** One iteration of the loop beside one visit of the tree search. */
  lemma IterationIsVisit(data: seq<Byte>, v: View, son: seq<UInt32>, ptr0: nat, ptr1: nat, curMatch: UInt32, t: Tree,
                         cut: nat, len0: nat, len1: nat, lim: nat, maxLen: nat)
    requires v.Valid() && |son| == 2 * v.cyclicSize && ptr0 < |son| && ptr1 < |son|
    requires len0 <= maxLen && len1 <= maxLen && maxLen < lim && cut > 0
    requires t.Node? && v.InWindow(curMatch) && t.at == v.cur - v.Delta(curMatch)
    ensures var len := Lcp(data, t.at, v.cur, Min(len0, len1), lim);
            var found := if maxLen < len then [Match(len, v.cur - t.at - 1)] else [];
            var best := if maxLen < len then len else maxLen;
            var pair := v.Pair(t.at);
            var r := GetLoop(data, v, son, ptr0, ptr1, curMatch, cut, len0, len1, lim, maxLen);
            var s := SearchTree(data, t, v.cur, lim, cut, len0, len1, maxLen);
            if len == lim then
              var son1 := son[ptr1 := son[pair]];
              r == Searched(son1[ptr0 := son1[pair + 1]], found) && s == Split(t.left, t.right, found)
            else if At(data, t.at, len) < At(data, v.cur, len) then
              var son1 := son[ptr1 := curMatch];
              var r' := GetLoop(data, v, son1, ptr0, pair + 1, son1[pair + 1], cut - 1, len0, len, lim, best);
              var s' := SearchTree(data, t.right, v.cur, lim, cut - 1, len0, len, best);
              r == Searched(r'.son, found + r'.found)
                  && s == Split(Node(t.at, t.left, s'.left), s'.right, found + s'.found)
            else
              var son1 := son[ptr0 := curMatch];
              var r' := GetLoop(data, v, son1, pair, ptr1, son1[pair], cut - 1, len, len1, lim, best);
              var s' := SearchTree(data, t.left, v.cur, lim, cut - 1, len, len1, best);
              r == Searched(r'.son, found + r'.found)
                  && s == Split(s'.left, Node(t.at, s'.right, t.right), found + s'.found)
  {
    hide Lcp, At, View.Pair, View.Delta;
  }

  /** The loop of GetMatchesSpec1 is one insertion into the represented tree. */
  lemma {:induction false} LoopIsSearch(data: seq<Byte>, v: View, son: seq<UInt32>, ptr0: nat, ptr1: nat, q0: int,
                                        q1: int,
                                        curMatch: UInt32, t: Tree, b: int,
                                        cut: nat, len0: nat, len1: nat, lim: nat, maxLen: nat)
    requires v.Valid() && |son| == 2 * v.cyclicSize && ptr0 < |son| && ptr1 < |son|
    requires len0 <= maxLen && len1 <= maxLen && maxLen < lim
    requires Dangling(son, ptr0, ptr1, q0, q1, curMatch, t, b, v)
    ensures var r := GetLoop(data, v, son, ptr0, ptr1, curMatch, cut, len0, len1, lim, maxLen);
            var s := SearchTree(data, t, v.cur, lim, cut, len0, len1, maxLen);
            && r.found == s.found && HangsSplit(son, r.son, ptr0, ptr1, t, s.left, s.right, v)
    decreases t
  {
    hide Lcp, At, View.Pair, View.Delta, Dangling, HangsSplit, GetLoop, SearchTree;
    LoopFollowsTree(son, ptr0, ptr1, q0, q1, curMatch, t, b, v);
    if cut == 0 || t.Leaf? {
      LoopEnds(son, ptr0, ptr1, q0, q1, curMatch, t, b, v);
      GetEnds(data, v, son, ptr0, ptr1, curMatch, cut, len0, len1, lim, maxLen);
      SearchEnds(data, t, v.cur, lim, cut, len0, len1, maxLen);
      return;
    }
    var pair := v.Pair(t.at);
    var len := Lcp(data, t.at, v.cur, Min(len0, len1), lim);
    var best := if maxLen < len then len else maxLen;
    IterationIsVisit(data, v, son, ptr0, ptr1, curMatch, t, cut, len0, len1, lim, maxLen);
    if len == lim {
      LoopReplaces(son, ptr0, ptr1, q0, q1, curMatch, t, b, v);
    } else if At(data, t.at, len) < At(data, v.cur, len) {
      var son1 := son[ptr1 := curMatch];
      LoopGoesRight(son, ptr0, ptr1, q0, q1, curMatch, t, b, v);
      LoopIsSearch(data, v, son1, ptr0, pair + 1, q0, t.at, son1[pair + 1], t.right, t.at, cut - 1, len0, len, lim,
                   best);
      var r := GetLoop(data, v, son1, ptr0, pair + 1, son1[pair + 1], cut - 1, len0, len, lim, best);
      var s := SearchTree(data, t.right, v.cur, lim, cut - 1, len0, len, best);
      HangsRight(son, r.son, ptr0, ptr1, q0, q1, curMatch, t, b, s.left, s.right, v);
    } else {
      var son1 := son[ptr0 := curMatch];
      LoopGoesLeft(son, ptr0, ptr1, q0, q1, curMatch, t, b, v);
      LoopIsSearch(data, v, son1, pair, ptr1, t.at, q1, son1[pair], t.left, t.at, cut - 1, len, len1, lim, best);
      var r := GetLoop(data, v, son1, pair, ptr1, son1[pair], cut - 1, len, len1, lim, best);
      var s := SearchTree(data, t.left, v.cur, lim, cut - 1, len, len1, best);
      HangsLeft(son, r.son, ptr0, ptr1, q0, q1, curMatch, t, b, s.left, s.right, v);
    }
  }

  lemma GetUnfolds(data: seq<Byte>, v: View, son: seq<UInt32>, ptr0: nat, ptr1: nat, curMatch: UInt32,
                   cut: nat, len0: nat, len1: nat, lim: nat, maxLen: nat)
    requires v.Valid() && |son| == 2 * v.cyclicSize && ptr0 < |son| && ptr1 < |son|
    requires len0 < lim && len1 < lim && maxLen < lim && cut > 0 && v.InWindow(curMatch)
    ensures var delta := v.Delta(curMatch);
            var pb := v.cur - delta;
            var pair := v.Pair(pb);
            var start := Min(len0, len1);
            var len := Lcp(data, pb, v.cur, start, lim);
            var better := start < len && maxLen < len;
            var found := if better then [Match(len, delta - 1)] else [];
            var best := if better then len else maxLen;
            var r := GetLoop(data, v, son, ptr0, ptr1, curMatch, cut, len0, len1, lim, maxLen);
            if len == lim then
              var son1 := son[ptr1 := son[pair]];
              better && r == Searched(son1[ptr0 := son1[pair + 1]], found)
            else if At(data, pb, len) < At(data, v.cur, len) then
              var son1 := son[ptr1 := curMatch];
              var r' := GetLoop(data, v, son1, ptr0, pair + 1, son1[pair + 1], cut - 1, len0, len, lim, best);
              r == Searched(r'.son, found + r'.found)
            else
              var son1 := son[ptr0 := curMatch];
              var r' := GetLoop(data, v, son1, pair, ptr1, son1[pair], cut - 1, len, len1, lim, best);
              r == Searched(r'.son, found + r'.found)
  {
    hide Lcp, At, View.Pair, View.Delta;
  }

  lemma SkipUnfolds(data: seq<Byte>, v: View, son: seq<UInt32>, ptr0: nat, ptr1: nat, curMatch: UInt32,
                    cut: nat, len0: nat, len1: nat, lim: nat)
    requires v.Valid() && |son| == 2 * v.cyclicSize && ptr0 < |son| && ptr1 < |son|
    requires len0 < lim && len1 < lim && cut > 0 && v.InWindow(curMatch)
    ensures var pb := v.cur - v.Delta(curMatch);
            var pair := v.Pair(pb);
            var len := Lcp(data, pb, v.cur, Min(len0, len1), lim);
            SkipLoop(data, v, son, ptr0, ptr1, curMatch, cut, len0, len1, lim) ==
              if len == lim then
                var son1 := son[ptr1 := son[pair]];
                son1[ptr0 := son1[pair + 1]]
              else if At(data, pb, len) < At(data, v.cur, len) then
                var son1 := son[ptr1 := curMatch];
                SkipLoop(data, v, son1, ptr0, pair + 1, son1[pair + 1], cut - 1, len0, len, lim)
              else
                var son1 := son[ptr0 := curMatch];
                SkipLoop(data, v, son1, pair, ptr1, son1[pair], cut - 1, len, len1, lim)
  {
    hide Lcp, At, View.Pair, View.Delta;
  }

  lemma SkipEnds(data: seq<Byte>, v: View, son: seq<UInt32>, ptr0: nat, ptr1: nat, curMatch: UInt32,
                 cut: nat, len0: nat, len1: nat, lim: nat)
    requires v.Valid() && |son| == 2 * v.cyclicSize && ptr0 < |son| && ptr1 < |son|
    requires len0 < lim && len1 < lim
    requires cut == 0 || !v.InWindow(curMatch)
    ensures SkipLoop(data, v, son, ptr0, ptr1, curMatch, cut, len0, len1, lim) == son[ptr0 := EMPTY][ptr1 := EMPTY]
  {
  }

  lemma GetEnds(data: seq<Byte>, v: View, son: seq<UInt32>, ptr0: nat, ptr1: nat, curMatch: UInt32,
                cut: nat, len0: nat, len1: nat, lim: nat, maxLen: nat)
    requires v.Valid() && |son| == 2 * v.cyclicSize && ptr0 < |son| && ptr1 < |son|
    requires len0 < lim && len1 < lim && maxLen < lim
    requires cut == 0 || !v.InWindow(curMatch)
    ensures GetLoop(data, v, son, ptr0, ptr1, curMatch, cut, len0, len1, lim, maxLen) ==
            Searched(son[ptr0 := EMPTY][ptr1 := EMPTY], [])
  {
  }

  lemma LoopFollowsTree(son: seq<UInt32>, ptr0: nat, ptr1: nat, q0: int, q1: int, curMatch: UInt32, t: Tree, b: int,
                        v: View)
    requires v.Valid() && |son| == 2 * v.cyclicSize && ptr0 < |son| && ptr1 < |son|
    requires Dangling(son, ptr0, ptr1, q0, q1, curMatch, t, b, v)
    ensures t.Leaf? <==> !v.InWindow(curMatch)
    ensures t.Node? ==> t.at == v.cur - v.Delta(curMatch) && v.cur - v.cyclicSize < t.at <= v.cur && t.at < b
  {
  }
}
