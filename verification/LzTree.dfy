/** The binary trees of the match finder as values: nodes are labelled by the index of a string
    in the input, `left` holds smaller strings, `right` larger ones, children are older.
    `SearchTree` is one insertion: it splits the tree around the current string and lists the
    matches it meets. `Scan` is the naive search it has to agree with. */
module LzTree {
  import opened Words

  datatype Tree = Leaf | Node(at: nat, left: Tree, right: Tree)

  /** A reported match: its length and its distance minus one. */
  datatype Match = Match(len: nat, dist: int)

  datatype Split = Split(left: Tree, right: Tree, found: seq<Match>)

  /** The k-th byte of the string at index `i`. */
  function At(data: seq<Byte>, i: int, k: int): Byte {
    if 0 <= i + k < |data| then data[i + k] else 0
  }

  /** How far the strings at `i` and `j` agree, given that they agree before `k`; at most `lim`. */
  function Lcp(data: seq<Byte>, i: int, j: int, k: nat, lim: nat): (n: nat)
    requires k <= lim
    ensures k <= n <= lim
    ensures n < lim ==> At(data, i, n) != At(data, j, n)
    ensures forall m :: k <= m < n ==> At(data, i, m) == At(data, j, m)
    decreases lim - k
  {
    if k == lim || At(data, i, k) != At(data, j, k) then k else Lcp(data, i, j, k + 1, lim)
  }

  function Len(data: seq<Byte>, i: int, j: int, lim: nat): (n: nat)
    ensures n <= lim
    ensures n < lim ==> At(data, i, n) != At(data, j, n)
    ensures forall m :: 0 <= m < n ==> At(data, i, m) == At(data, j, m)
  {
    Lcp(data, i, j, 0, lim)
  }

  /** Comparison of the first `lim` bytes. */
  predicate Leq(data: seq<Byte>, i: int, j: int, lim: nat) {
    var n := Len(data, i, j, lim);
    n == lim || At(data, i, n) < At(data, j, n)
  }

  lemma LenIs(data: seq<Byte>, i: int, j: int, lim: nat, n: nat)
    requires n <= lim
    requires forall m :: 0 <= m < n ==> At(data, i, m) == At(data, j, m)
    requires n < lim ==> At(data, i, n) != At(data, j, n)
    ensures Len(data, i, j, lim) == n
  {
  }

  /** Comparison may start wherever the strings are already known to agree. */
  lemma LcpStartsLater(data: seq<Byte>, i: int, j: int, k: nat, lim: nat)
    requires k <= Len(data, i, j, lim)
    ensures Lcp(data, i, j, k, lim) == Len(data, i, j, lim)
  {
  }

  lemma LenSymmetric(data: seq<Byte>, i: int, j: int, lim: nat)
    ensures Len(data, i, j, lim) == Len(data, j, i, lim)
  {
    LenIs(data, j, i, lim, Len(data, i, j, lim));
  }

  lemma LeqTotal(data: seq<Byte>, i: int, j: int, lim: nat)
    ensures Leq(data, i, j, lim) || Leq(data, j, i, lim)
  {
    LenSymmetric(data, i, j, lim);
  }

  /** A string between `p` and `c` agrees with `c` at least as far as `p` does. */
  lemma Between(data: seq<Byte>, p: int, x: int, c: int, lim: nat)
    requires (Leq(data, p, x, lim) && Leq(data, x, c, lim)) || (Leq(data, c, x, lim) && Leq(data, x, p, lim))
    ensures Len(data, p, c, lim) <= Len(data, x, c, lim)
  {
    hide Lcp;
    var n, a := Len(data, p, c, lim), Len(data, x, c, lim);
    if a < n {
      assert At(data, p, a) == At(data, c, a);
      LenIs(data, p, x, lim, a);
      LenIs(data, x, p, lim, a);
      LenIs(data, c, x, lim, a);
    }
  }

  lemma LeqTransitive(data: seq<Byte>, i: int, j: int, k: int, lim: nat)
    requires Leq(data, i, j, lim) && Leq(data, j, k, lim)
    ensures Leq(data, i, k, lim)
  {
    hide Lcp;
    var n := Len(data, i, k, lim);
    var a, b := Len(data, i, j, lim), Len(data, j, k, lim);
    if n < lim {
      Between(data, i, j, k, lim);
      assert n <= b;
      assert n <= a;
    }
  }

  /** Agreement and order on `lim` bytes carry over to fewer bytes. */
  lemma ShorterLimit(data: seq<Byte>, i: int, j: int, lim: nat, lim': nat)
    requires lim' <= lim
    ensures Len(data, i, j, lim') == Min(Len(data, i, j, lim), lim')
    ensures Leq(data, i, j, lim) ==> Leq(data, i, j, lim')
  {
    hide Lcp;
    LenIs(data, i, j, lim', Min(Len(data, i, j, lim), lim'));
  }

  // ---- Trees ----

  function Nodes(t: Tree): set<nat> {
    if t.Leaf? then {} else {t.at} + Nodes(t.left) + Nodes(t.right)
  }

  function Height(t: Tree): nat {
    if t.Leaf? then 0 else
    var l, r := Height(t.left), Height(t.right);
    1 + if l < r then r else l
  }

  /** Children are older than their parent, and everything is older than `b`. */
  predicate OlderThan(t: Tree, b: int) {
    t.Node? ==> t.at < b && OlderThan(t.left, t.at) && OlderThan(t.right, t.at)
  }

  predicate Distinct(t: Tree) {
    t.Node? ==> Nodes(t.left) !! Nodes(t.right) && Distinct(t.left) && Distinct(t.right)
  }

  /** All strings of `t` are at most (at least) the string at `c`. */
  ghost predicate AllLeq(data: seq<Byte>, t: Tree, c: int, lim: nat) {
    forall x :: x in Nodes(t) ==> Leq(data, x, c, lim)
  }

  ghost predicate AllGeq(data: seq<Byte>, t: Tree, c: int, lim: nat) {
    forall x :: x in Nodes(t) ==> Leq(data, c, x, lim)
  }

  /** The left subtree holds smaller strings, the right subtree larger ones, on `lim` bytes. */
  ghost predicate Ordered(data: seq<Byte>, t: Tree, lim: nat) {
    t.Node? ==>
      && AllLeq(data, t.left, t.at, lim) && AllGeq(data, t.right, t.at, lim)
      && Ordered(data, t.left, lim) && Ordered(data, t.right, lim)
  }

  /** The tree invariant: search order by content, heap order by age, no string twice. */
  ghost predicate SearchTreeOf(data: seq<Byte>, t: Tree, b: int, lim: nat) {
    OlderThan(t, b) && Distinct(t) && Ordered(data, t, lim)
  }

  lemma OlderNodes(t: Tree, b: int)
    requires OlderThan(t, b)
    ensures forall x :: x in Nodes(t) ==> x < b
  {
  }

  lemma OrderedShorter(data: seq<Byte>, t: Tree, lim: nat, lim': nat)
    requires Ordered(data, t, lim) && lim' <= lim
    ensures Ordered(data, t, lim')
  {
    if t.Node? {
      OrderedShorter(data, t.left, lim, lim');
      OrderedShorter(data, t.right, lim, lim');
      forall x | x in Nodes(t) ensures Leq(data, x, t.at, lim) ==> Leq(data, x, t.at, lim') {
        ShorterLimit(data, x, t.at, lim, lim');
      }
      forall x | x in Nodes(t) ensures Leq(data, t.at, x, lim) ==> Leq(data, t.at, x, lim') {
        ShorterLimit(data, t.at, x, lim, lim');
      }
    }
  }

  // ---- One insertion ----

  /** Splits `t` around the string at `cur`; `cut` bounds the number of nodes visited, `len0` and `len1`
      are how far the last larger and the last smaller string agree with `cur`. */
  function SearchTree(data: seq<Byte>, t: Tree, cur: nat, lim: nat, cut: nat, len0: nat, len1: nat, maxLen: nat): Split
    requires len0 < lim && len1 < lim
    decreases t
  {
    if t.Leaf? || cut == 0 then
      Split(Leaf, Leaf, [])
    else
      var len := Lcp(data, t.at, cur, Min(len0, len1), lim);
      var found := if maxLen < len then [Match(len, cur - t.at - 1)] else [];
      var best := if maxLen < len then len else maxLen;
      if len == lim then
        Split(t.left, t.right, found)
      else if At(data, t.at, len) < At(data, cur, len) then
        var s := SearchTree(data, t.right, cur, lim, cut - 1, len0, len, best);
        Split(Node(t.at, t.left, s.left), s.right, found + s.found)
      else
        var s := SearchTree(data, t.left, cur, lim, cut - 1, len, len1, best);
        Split(s.left, Node(t.at, s.right, t.right), found + s.found)
  }

  /** Smaller strings agree with `cur` at least `len1` bytes, larger ones at least `len0` bytes. */
  ghost predicate Near(data: seq<Byte>, t: Tree, cur: int, lim: nat, len0: nat, len1: nat) {
    forall x :: x in Nodes(t) ==>
      && (Leq(data, x, cur, lim) ==> Len(data, x, cur, lim) >= len1)
      && (Leq(data, cur, x, lim) ==> Len(data, x, cur, lim) >= len0)
  }

  /** Starting the comparison at min(len0, len1) computes the full common prefix. */
  lemma NearRoot(data: seq<Byte>, t: Tree, cur: int, lim: nat, len0: nat, len1: nat)
    requires t.Node? && Near(data, t, cur, lim, len0, len1)
    requires len0 < lim && len1 < lim
    ensures Lcp(data, t.at, cur, Min(len0, len1), lim) == Len(data, t.at, cur, lim)
  {
    LeqTotal(data, t.at, cur, lim);
    LcpStartsLater(data, t.at, cur, Min(len0, len1), lim);
  }

  lemma NearRight(data: seq<Byte>, t: Tree, cur: int, lim: nat, len0: nat, len1: nat)
    requires t.Node? && Near(data, t, cur, lim, len0, len1) && Ordered(data, t, lim)
    ensures Near(data, t.right, cur, lim, len0, Len(data, t.at, cur, lim))
  {
    forall x | x in Nodes(t.right) && Leq(data, x, cur, lim)
      ensures Len(data, x, cur, lim) >= Len(data, t.at, cur, lim)
    {
      Between(data, t.at, x, cur, lim);
    }
  }

  lemma NearLeft(data: seq<Byte>, t: Tree, cur: int, lim: nat, len0: nat, len1: nat)
    requires t.Node? && Near(data, t, cur, lim, len0, len1) && Ordered(data, t, lim)
    ensures Near(data, t.left, cur, lim, Len(data, t.at, cur, lim), len1)
  {
    forall x | x in Nodes(t.left) && Leq(data, cur, x, lim)
      ensures Len(data, x, cur, lim) >= Len(data, t.at, cur, lim)
    {
      Between(data, t.at, x, cur, lim);
    }
  }

  /** One visit, with the full common prefix in place of the partial comparison. */
  lemma SearchVisits(data: seq<Byte>, t: Tree, cur: nat, lim: nat, cut: nat, len0: nat, len1: nat, maxLen: nat)
    requires t.Node? && cut > 0 && Near(data, t, cur, lim, len0, len1)
    requires len0 < lim && len1 < lim
    ensures var len := Len(data, t.at, cur, lim);
            var found := if maxLen < len then [Match(len, cur - t.at - 1)] else [];
            var best := if maxLen < len then len else maxLen;
            var all := SearchTree(data, t, cur, lim, cut, len0, len1, maxLen);
            if len == lim then
              && all == Split(t.left, t.right, found)
              && Leq(data, t.at, cur, lim) && Leq(data, cur, t.at, lim)
            else if At(data, t.at, len) < At(data, cur, len) then
              var s := SearchTree(data, t.right, cur, lim, cut - 1, len0, len, best);
              && all == Split(Node(t.at, t.left, s.left), s.right, found + s.found)
              && Leq(data, t.at, cur, lim)
            else
              var s := SearchTree(data, t.left, cur, lim, cut - 1, len, len1, best);
              && all == Split(s.left, Node(t.at, s.right, t.right), found + s.found)
              && Leq(data, cur, t.at, lim)
  {
    hide Near, Lcp;
    NearRoot(data, t, cur, lim, len0, len1);
    LenSymmetric(data, t.at, cur, lim);
  }

  lemma NearAtStart(data: seq<Byte>, t: Tree, cur: int, lim: nat)
    ensures Near(data, t, cur, lim, 0, 0)
  {
  }

  /** Both halves of the split keep the tree invariant, hold only old nodes, and lie on their side
      of the current string; this for any `cut`. */
  lemma {:induction false} SplitKeepsOrder(data: seq<Byte>, t: Tree, b: nat, cur: nat, lim: nat,
                                           cut: nat, len0: nat, len1: nat, maxLen: nat)
    requires SearchTreeOf(data, t, b, lim) && Near(data, t, cur, lim, len0, len1)
    requires len0 < lim && len1 < lim
    ensures var s := SearchTree(data, t, cur, lim, cut, len0, len1, maxLen);
            && SearchTreeOf(data, s.left, b, lim) && SearchTreeOf(data, s.right, b, lim)
            && Nodes(s.left) !! Nodes(s.right) && Nodes(s.left) + Nodes(s.right) <= Nodes(t)
            && AllLeq(data, s.left, cur, lim) && AllGeq(data, s.right, cur, lim)
    decreases t
  {
    hide SearchTree, Near, Leq, Len, At;
    if t.Node? && cut > 0 {
      var len := Len(data, t.at, cur, lim);
      var best := if maxLen < len then len else maxLen;
      SearchVisits(data, t, cur, lim, cut, len0, len1, maxLen);
      OlderNodes(t.left, t.at);
      OlderNodes(t.right, t.at);
      OlderWeaken(t.left, t.at, b);
      OlderWeaken(t.right, t.at, b);
      SidesOfCurrent(data, t, cur, lim);
      if len < lim {
        if At(data, t.at, len) < At(data, cur, len) {
          NearRight(data, t, cur, lim, len0, len1);
          SplitKeepsOrder(data, t.right, t.at, cur, lim, cut - 1, len0, len, best);
          var s := SearchTree(data, t.right, cur, lim, cut - 1, len0, len, best);
          OlderWeaken(s.right, t.at, b);
        } else {
          NearLeft(data, t, cur, lim, len0, len1);
          SplitKeepsOrder(data, t.left, t.at, cur, lim, cut - 1, len, len1, best);
          var s := SearchTree(data, t.left, cur, lim, cut - 1, len, len1, best);
          OlderWeaken(s.left, t.at, b);
        }
      }
    } else {
      SearchEnds(data, t, cur, lim, cut, len0, len1, maxLen);
    }
  }

  lemma SearchEnds(data: seq<Byte>, t: Tree, cur: nat, lim: nat, cut: nat, len0: nat, len1: nat, maxLen: nat)
    requires t.Leaf? || cut == 0
    requires len0 < lim && len1 < lim
    ensures SearchTree(data, t, cur, lim, cut, len0, len1, maxLen) == Split(Leaf, Leaf, [])
  {
  }

  lemma OlderWeaken(t: Tree, b: int, b': int)
    requires OlderThan(t, b) && b <= b'
    ensures OlderThan(t, b')
  {
  }

  /** A root on one side of the current string has its subtree of that side there too. */
  lemma SidesOfCurrent(data: seq<Byte>, t: Tree, cur: int, lim: nat)
    requires t.Node? && Ordered(data, t, lim)
    ensures Leq(data, t.at, cur, lim) ==> AllLeq(data, t.left, cur, lim)
    ensures Leq(data, cur, t.at, lim) ==> AllGeq(data, t.right, cur, lim)
  {
    hide Leq;
    forall x | x in Nodes(t.left) && Leq(data, t.at, cur, lim) ensures Leq(data, x, cur, lim) {
      LeqTransitive(data, x, t.at, cur, lim);
    }
    forall x | x in Nodes(t.right) && Leq(data, cur, t.at, lim) ensures Leq(data, cur, x, lim) {
      LeqTransitive(data, cur, t.at, x, lim);
    }
  }

  /** The tree with the current string as its new root. */
  lemma InsertKeepsInvariant(data: seq<Byte>, t: Tree, cur: nat, lim: nat, cut: nat, maxLen: nat)
    requires SearchTreeOf(data, t, cur, lim) && lim > 0
    ensures var s := SearchTree(data, t, cur, lim, cut, 0, 0, maxLen);
            && SearchTreeOf(data, Node(cur, s.left, s.right), cur + 1, lim)
            && Nodes(Node(cur, s.left, s.right)) <= Nodes(t) + {cur}
  {
    hide SearchTree, Leq;
    NearAtStart(data, t, cur, lim);
    SplitKeepsOrder(data, t, cur, cur, lim, cut, 0, 0, maxLen);
  }

  /** With enough visits no string is lost, except those equal to the current one on `lim` bytes. */
  lemma {:induction false} SplitKeepsNodes(data: seq<Byte>, t: Tree, cur: nat, lim: nat,
                                           cut: nat, len0: nat, len1: nat, maxLen: nat)
    requires Ordered(data, t, lim) && Near(data, t, cur, lim, len0, len1)
    requires len0 < lim && len1 < lim && Height(t) <= cut
    ensures var s := SearchTree(data, t, cur, lim, cut, len0, len1, maxLen);
            forall x :: x in Nodes(t) ==> x in Nodes(s.left) || x in Nodes(s.right) || Len(data, x, cur, lim) == lim
    decreases t
  {
    hide SearchTree, Near, Leq, Len, At;
    if t.Node? {
      var len := Len(data, t.at, cur, lim);
      var best := if maxLen < len then len else maxLen;
      SearchVisits(data, t, cur, lim, cut, len0, len1, maxLen);
      if len < lim {
        if At(data, t.at, len) < At(data, cur, len) {
          NearRight(data, t, cur, lim, len0, len1);
          SplitKeepsNodes(data, t.right, cur, lim, cut - 1, len0, len, best);
        } else {
          NearLeft(data, t, cur, lim, len0, len1);
          SplitKeepsNodes(data, t.left, cur, lim, cut - 1, len, len1, best);
        }
      }
    }
  }

  // ---- The naive search ----

  /** Walks the candidates of `s` below `i` from the nearest to the farthest and reports every one
      that agrees with `cur` on more bytes than all before it (and than `maxLen`). */
  function Scan(data: seq<Byte>, s: set<nat>, i: nat, cur: nat, lim: nat, maxLen: nat): seq<Match>
    decreases i
  {
    if i == 0 then []
    else
      var len := Len(data, i - 1, cur, lim);
      if i - 1 in s && maxLen < len then
        [Match(len, cur - i)] + Scan(data, s, i - 1, cur, lim, len)
      else
        Scan(data, s, i - 1, cur, lim, maxLen)
  }

  /** The candidate at `x` reaches more than `maxLen` bytes and more than every candidate in x+1 .. i-1. */
  ghost predicate Improves(data: seq<Byte>, s: set<nat>, x: int, i: int, cur: int, lim: nat, maxLen: nat) {
    && 0 <= x < i && x in s && maxLen < Len(data, x, cur, lim)
    && forall y :: x < y < i && y in s ==> Len(data, y, cur, lim) < Len(data, x, cur, lim)
  }

  lemma ImprovesBelow(data: seq<Byte>, s: set<nat>, x: int, i: nat, cur: int, lim: nat, maxLen: nat)
    requires i > 0
    ensures var len := Len(data, i - 1, cur, lim);
            var best := if i - 1 in s && maxLen < len then len else maxLen;
            Improves(data, s, x, i, cur, lim, maxLen) <==>
              if x == i - 1 then i - 1 in s && maxLen < len else Improves(data, s, x, i - 1, cur, lim, best)
  {
    hide Len;
  }

  /** What the naive search reports: exactly the improving candidates, with their lengths. */
  lemma {:induction false} ScanReports(data: seq<Byte>, s: set<nat>, i: nat, cur: nat, lim: nat, maxLen: nat, m: Match)
    requires i <= cur
    ensures m in Scan(data, s, i, cur, lim, maxLen) <==>
            var x := cur - 1 - m.dist;
            Improves(data, s, x, i, cur, lim, maxLen) && m.len == Len(data, x, cur, lim)
    decreases i
  {
    hide Len, Scan;
    var x := cur - 1 - m.dist;
    if i > 0 {
      hide Improves;
      var len := Len(data, i - 1, cur, lim);
      ScanUnfolds(data, s, i, cur, lim, maxLen);
      ImprovesBelow(data, s, x, i, cur, lim, maxLen);
      if i - 1 in s && maxLen < len {
        ScanReports(data, s, i - 1, cur, lim, len, m);
        ImprovesOnlyBelow(data, s, i - 1, i - 1, cur, lim, len);
      } else {
        ScanReports(data, s, i - 1, cur, lim, maxLen, m);
        ImprovesOnlyBelow(data, s, i - 1, i - 1, cur, lim, maxLen);
      }
    } else {
      ScanEmpty(data, s, cur, lim, maxLen);
    }
  }

  lemma ImprovesOnlyBelow(data: seq<Byte>, s: set<nat>, x: int, i: nat, cur: int, lim: nat, maxLen: nat)
    requires x >= i
    ensures !Improves(data, s, x, i, cur, lim, maxLen)
  {
  }

  /** Reported lengths and distances both strictly increase. */
  ghost predicate Increasing(found: seq<Match>, minLen: int, minDist: int) {
    && (forall k :: 0 <= k < |found| ==> minLen < found[k].len && minDist <= found[k].dist)
    && (forall k, l :: 0 <= k < l < |found| ==> found[k].len < found[l].len && found[k].dist < found[l].dist)
  }

  lemma {:induction false} ScanIncreases(data: seq<Byte>, s: set<nat>, i: nat, cur: nat, lim: nat, maxLen: nat)
    requires i <= cur
    ensures Increasing(Scan(data, s, i, cur, lim, maxLen), maxLen, cur - i)
    decreases i
  {
    hide Len, Scan;
    if i > 0 {
      var len := Len(data, i - 1, cur, lim);
      ScanUnfolds(data, s, i, cur, lim, maxLen);
      if i - 1 in s && maxLen < len {
        ScanIncreases(data, s, i - 1, cur, lim, len);
        IncreasingCons(Match(len, cur - i), Scan(data, s, i - 1, cur, lim, len), maxLen, cur - i);
      } else {
        ScanIncreases(data, s, i - 1, cur, lim, maxLen);
      }
    } else {
      ScanEmpty(data, s, cur, lim, maxLen);
    }
  }

  lemma IncreasingCons(m: Match, rest: seq<Match>, minLen: int, minDist: int)
    requires minLen < m.len && minDist <= m.dist && Increasing(rest, m.len, m.dist + 1)
    ensures Increasing([m] + rest, minLen, minDist)
  {
    var found := [m] + rest;
    assert forall k :: 1 <= k < |found| ==> found[k] == rest[k - 1];
  }

  /** Candidates that cannot improve on `maxLen` make no difference. */
  lemma {:induction false} ScanIgnores(data: seq<Byte>, s: set<nat>, s': set<nat>, i: nat, cur: nat, lim: nat,
                                       maxLen: nat)
    requires forall x :: 0 <= x < i && maxLen < Len(data, x, cur, lim) ==> (x in s <==> x in s')
    ensures Scan(data, s, i, cur, lim, maxLen) == Scan(data, s', i, cur, lim, maxLen)
    decreases i
  {
    hide Len;
    if i > 0 {
      var len := Len(data, i - 1, cur, lim);
      ScanIgnores(data, s, s', i - 1, cur, lim, if i - 1 in s && maxLen < len then len else maxLen);
    }
  }

  lemma {:induction false} ScanStartsLower(data: seq<Byte>, s: set<nat>, i: nat, i': nat, cur: nat, lim: nat,
                                           maxLen: nat)
    requires i' <= i
    requires forall x :: i' <= x < i ==> x !in s || Len(data, x, cur, lim) <= maxLen
    ensures Scan(data, s, i, cur, lim, maxLen) == Scan(data, s, i', cur, lim, maxLen)
    decreases i
  {
    hide Len;
    if i' < i {
      ScanStartsLower(data, s, i - 1, i', cur, lim, maxLen);
    }
  }

  /** Some member of `s` in x .. i-1 agrees with `cur` at least as far as `x` does. */
  ghost predicate Represented(data: seq<Byte>, s: set<nat>, x: int, i: int, cur: int, lim: nat) {
    exists y :: y in s && x <= y < i && Len(data, x, cur, lim) <= Len(data, y, cur, lim)
  }

  lemma RepresentedBelow(data: seq<Byte>, s: set<nat>, x: int, i: int, cur: int, lim: nat)
    requires Represented(data, s, x, i, cur, lim) && 0 < i
    requires i - 1 !in s || Len(data, i - 1, cur, lim) < Len(data, x, cur, lim)
    ensures Represented(data, s, x, i - 1, cur, lim) && x < i - 1
  {
    hide Len;
  }

  /** Leaving out candidates that a nearer one stands for makes no difference. */
  lemma {:induction false} ScanRepresented(data: seq<Byte>, s: set<nat>, all: set<nat>, i: nat, cur: nat, lim: nat,
                                           maxLen: nat)
    requires s <= all
    requires forall x :: x in all && x < i && maxLen < Len(data, x, cur, lim) ==> Represented(data, s, x, i, cur, lim)
    ensures Scan(data, s, i, cur, lim, maxLen) == Scan(data, all, i, cur, lim, maxLen)
    decreases i
  {
    hide Len, Scan, Represented;
    if i > 0 {
      var len := Len(data, i - 1, cur, lim);
      var best := if i - 1 in s && maxLen < len then len else maxLen;
      forall x | x in all && x < i - 1 && best < Len(data, x, cur, lim)
        ensures Represented(data, s, x, i - 1, cur, lim)
      {
        RepresentedBelow(data, s, x, i, cur, lim);
      }
      ScanRepresented(data, s, all, i - 1, cur, lim, best);
      if i - 1 in all && maxLen < len && i - 1 !in s {
        RepresentedBelow(data, s, i - 1, i, cur, lim);
      }
      ScanUnfolds(data, s, i, cur, lim, maxLen);
      ScanUnfolds(data, all, i, cur, lim, maxLen);
    } else {
      ScanEmpty(data, s, cur, lim, maxLen);
      ScanEmpty(data, all, cur, lim, maxLen);
    }
  }

  lemma ScanUnfolds(data: seq<Byte>, s: set<nat>, i: nat, cur: nat, lim: nat, maxLen: nat)
    requires i > 0
    ensures var len := Len(data, i - 1, cur, lim);
            Scan(data, s, i, cur, lim, maxLen) ==
              if i - 1 in s && maxLen < len then [Match(len, cur - i)] + Scan(data, s, i - 1, cur, lim, len)
              else Scan(data, s, i - 1, cur, lim, maxLen)
  {
  }

  // ---- The tree search is the naive search ----

  /** Below the root only one side can improve on the root itself. */
  lemma OtherSideDominated(data: seq<Byte>, t: Tree, cur: nat, lim: nat)
    requires t.Node? && Ordered(data, t, lim)
    ensures Leq(data, t.at, cur, lim) ==> forall x :: x in Nodes(t.left) ==>
              Len(data, x, cur, lim) <= Len(data, t.at, cur, lim)
    ensures Leq(data, cur, t.at, lim) ==> forall x :: x in Nodes(t.right) ==>
              Len(data, x, cur, lim) <= Len(data, t.at, cur, lim)
  {
    forall x | x in Nodes(t.left) && Leq(data, t.at, cur, lim)
      ensures Len(data, x, cur, lim) <= Len(data, t.at, cur, lim)
    {
      Between(data, x, t.at, cur, lim);
    }
    forall x | x in Nodes(t.right) && Leq(data, cur, t.at, lim)
      ensures Len(data, x, cur, lim) <= Len(data, t.at, cur, lim)
    {
      Between(data, x, t.at, cur, lim);
    }
  }

  /** The naive search over a tree's nodes meets the root first, then only one subtree matters. */
  lemma ScanDescends(data: seq<Byte>, t: Tree, i: nat, cur: nat, lim: nat, maxLen: nat, next: Tree)
    requires SearchTreeOf(data, t, i, lim) && t.Node?
    requires (next == t.right && Leq(data, t.at, cur, lim)) || (next == t.left && Leq(data, cur, t.at, lim))
    ensures var len := Len(data, t.at, cur, lim);
            Scan(data, Nodes(t), i, cur, lim, maxLen) ==
              if maxLen < len then [Match(len, cur - t.at - 1)] + Scan(data, Nodes(next), t.at, cur, lim, len)
              else Scan(data, Nodes(next), t.at, cur, lim, maxLen)
  {
    hide Len, Leq, Scan, Ordered, OlderThan, Nodes;
    var len := Len(data, t.at, cur, lim);
    var best := if maxLen < len then len else maxLen;
    SubtreesBelow(data, t, i, cur, lim, next);
    ScanStartsLower(data, Nodes(t), i, t.at + 1, cur, lim, maxLen);
    ScanUnfolds(data, Nodes(t), t.at + 1, cur, lim, maxLen);
    ScanIgnores(data, Nodes(t), Nodes(next), t.at, cur, lim, best);
  }

  lemma SubtreesBelow(data: seq<Byte>, t: Tree, i: nat, cur: nat, lim: nat, next: Tree)
    requires SearchTreeOf(data, t, i, lim) && t.Node?
    requires (next == t.right && Leq(data, t.at, cur, lim)) || (next == t.left && Leq(data, cur, t.at, lim))
    ensures t.at in Nodes(t) && t.at < i
    ensures forall x :: x in Nodes(t) ==> x <= t.at
    ensures forall x :: x in Nodes(t) && Len(data, t.at, cur, lim) < Len(data, x, cur, lim) ==> x in Nodes(next)
    ensures Nodes(next) <= Nodes(t) && t.at !in Nodes(next)
  {
    hide Len, Leq;
    OlderNodes(t.left, t.at);
    OlderNodes(t.right, t.at);
    OtherSideDominated(data, t, cur, lim);
  }

  lemma {:induction false} ScanExhausted(data: seq<Byte>, s: set<nat>, i: nat, cur: nat, lim: nat, maxLen: nat)
    requires lim <= maxLen
    ensures Scan(data, s, i, cur, lim, maxLen) == []
    decreases i
  {
    if i > 0 {
      ScanExhausted(data, s, i - 1, cur, lim, maxLen);
    }
  }

  /** For any `cut` the tree search reports a prefix of what the naive search over its nodes reports;
      with enough visits it reports all of it. */
  lemma {:induction false} FoundIsScan(data: seq<Byte>, t: Tree, i: nat, cur: nat, lim: nat,
                                       cut: nat, len0: nat, len1: nat, maxLen: nat)
    requires SearchTreeOf(data, t, i, lim) && Near(data, t, cur, lim, len0, len1)
    requires len0 < lim && len1 < lim
    ensures var found := SearchTree(data, t, cur, lim, cut, len0, len1, maxLen).found;
            var scan := Scan(data, Nodes(t), i, cur, lim, maxLen);
            found <= scan && (Height(t) <= cut ==> found == scan)
    decreases t
  {
    hide Scan, SearchTree, Near, Leq, Len, At;
    if t.Leaf? {
      SearchEnds(data, t, cur, lim, cut, len0, len1, maxLen);
      ScanStartsLower(data, {}, i, 0, cur, lim, maxLen);
      ScanEmpty(data, {}, cur, lim, maxLen);
    } else if cut == 0 {
      SearchEnds(data, t, cur, lim, cut, len0, len1, maxLen);
    } else {
      var len := Len(data, t.at, cur, lim);
      var best := if maxLen < len then len else maxLen;
      SearchVisits(data, t, cur, lim, cut, len0, len1, maxLen);
      if len == lim {
        ScanDescends(data, t, i, cur, lim, maxLen, t.right);
        ScanExhausted(data, Nodes(t.right), t.at, cur, lim, best);
      } else if At(data, t.at, len) < At(data, cur, len) {
        ScanDescends(data, t, i, cur, lim, maxLen, t.right);
        NearRight(data, t, cur, lim, len0, len1);
        FoundIsScan(data, t.right, t.at, cur, lim, cut - 1, len0, len, best);
      } else {
        ScanDescends(data, t, i, cur, lim, maxLen, t.left);
        NearLeft(data, t, cur, lim, len0, len1);
        FoundIsScan(data, t.left, t.at, cur, lim, cut - 1, len, len1, best);
      }
    }
  }

  /** The first `n` nodes on the way down from the root: behind a smaller string among the larger ones,
      behind a larger string among the smaller ones, and no further than a string equal on `lim` bytes. */
  function PathNodes(data: seq<Byte>, t: Tree, cur: nat, lim: nat, n: nat): set<nat>
    decreases t
  {
    if t.Leaf? || n == 0 then {}
    else
      var len := Len(data, t.at, cur, lim);
      var next := if At(data, t.at, len) < At(data, cur, len) then t.right else t.left;
      {t.at} + if len == lim then {} else PathNodes(data, next, cur, lim, n - 1)
  }

  lemma {:induction false} PathIsShort(data: seq<Byte>, t: Tree, cur: nat, lim: nat, n: nat)
    ensures |PathNodes(data, t, cur, lim, n)| <= n && PathNodes(data, t, cur, lim, n) <= Nodes(t)
    decreases t
  {
    hide Len, At;
    if t.Node? && n > 0 {
      PathIsShort(data, t.left, cur, lim, n - 1);
      PathIsShort(data, t.right, cur, lim, n - 1);
    }
  }

  /** For any `cut` the tree search reports what the naive search over the first `cut` nodes on the way
      down reports. */
  lemma {:induction false} FoundIsVisited(data: seq<Byte>, t: Tree, i: nat, cur: nat, lim: nat,
                                          cut: nat, len0: nat, len1: nat, maxLen: nat)
    requires SearchTreeOf(data, t, i, lim) && Near(data, t, cur, lim, len0, len1)
    requires len0 < lim && len1 < lim
    ensures SearchTree(data, t, cur, lim, cut, len0, len1, maxLen).found
            == Scan(data, PathNodes(data, t, cur, lim, cut), i, cur, lim, maxLen)
    decreases t
  {
    hide Scan, SearchTree, Near, Leq, Len, At;
    if t.Leaf? || cut == 0 {
      SearchEnds(data, t, cur, lim, cut, len0, len1, maxLen);
      ScanStartsLower(data, {}, i, 0, cur, lim, maxLen);
      ScanEmpty(data, {}, cur, lim, maxLen);
    } else {
      var len := Len(data, t.at, cur, lim);
      var best := if maxLen < len then len else maxLen;
      SearchVisits(data, t, cur, lim, cut, len0, len1, maxLen);
      if len == lim {
        RootFirst(data, t.at, {}, i, cur, lim, maxLen);
        ScanExhausted(data, {}, t.at, cur, lim, best);
      } else if At(data, t.at, len) < At(data, cur, len) {
        NearRight(data, t, cur, lim, len0, len1);
        PathOlder(data, t.right, t.at, cur, lim, cut - 1);
        RootFirst(data, t.at, PathNodes(data, t.right, cur, lim, cut - 1), i, cur, lim, maxLen);
        FoundIsVisited(data, t.right, t.at, cur, lim, cut - 1, len0, len, best);
      } else {
        NearLeft(data, t, cur, lim, len0, len1);
        PathOlder(data, t.left, t.at, cur, lim, cut - 1);
        RootFirst(data, t.at, PathNodes(data, t.left, cur, lim, cut - 1), i, cur, lim, maxLen);
        FoundIsVisited(data, t.left, t.at, cur, lim, cut - 1, len, len1, best);
      }
    }
  }

  lemma PathOlder(data: seq<Byte>, t: Tree, b: nat, cur: nat, lim: nat, n: nat)
    requires OlderThan(t, b)
    ensures forall x :: x in PathNodes(data, t, cur, lim, n) ==> x < b
  {
    hide PathNodes, Nodes;
    PathIsShort(data, t, cur, lim, n);
    OlderNodes(t, b);
  }

  /** The naive search meets the newest string first. */
  lemma RootFirst(data: seq<Byte>, x: nat, s: set<nat>, i: nat, cur: nat, lim: nat, maxLen: nat)
    requires x < i && forall y :: y in s ==> y < x
    ensures var len := Len(data, x, cur, lim);
            Scan(data, {x} + s, i, cur, lim, maxLen) ==
              if maxLen < len then [Match(len, cur - x - 1)] + Scan(data, s, x, cur, lim, len)
              else Scan(data, s, x, cur, lim, maxLen)
  {
    hide Scan, Len;
    var len := Len(data, x, cur, lim);
    ScanStartsLower(data, {x} + s, i, x + 1, cur, lim, maxLen);
    ScanUnfolds(data, {x} + s, x + 1, cur, lim, maxLen);
    ScanIgnores(data, {x} + s, s, x, cur, lim, if maxLen < len then len else maxLen);
  }

  /** The subtree that the way down has reached after `n` nodes. */
  function Reached(data: seq<Byte>, t: Tree, cur: nat, lim: nat, n: nat): Tree
    decreases t
  {
    if t.Leaf? || n == 0 then t
    else
      var len := Len(data, t.at, cur, lim);
      if len == lim then Leaf
      else Reached(data, if At(data, t.at, len) < At(data, cur, len) then t.right else t.left, cur, lim, n - 1)
  }

  function EqualOnes(data: seq<Byte>, s: set<nat>, cur: nat, lim: nat): set<nat> {
    set x | x in s && Len(data, x, cur, lim) == lim
  }

  /** What an insertion loses: the subtree that a cut search does not get to, and on the way down the
      string that is equal on `lim` bytes. */
  lemma {:induction false} SplitLoses(data: seq<Byte>, t: Tree, i: nat, cur: nat, lim: nat,
                                      cut: nat, len0: nat, len1: nat, maxLen: nat)
    requires SearchTreeOf(data, t, i, lim) && Near(data, t, cur, lim, len0, len1)
    requires len0 < lim && len1 < lim
    ensures var s := SearchTree(data, t, cur, lim, cut, len0, len1, maxLen);
            Nodes(s.left) + Nodes(s.right)
            == Nodes(t) - Nodes(Reached(data, t, cur, lim, cut))
               - EqualOnes(data, PathNodes(data, t, cur, lim, cut), cur, lim)
    decreases t
  {
    hide SearchTree, Near, Leq, Len, At, SearchTreeOf, Nodes, EqualOnes;
    if t.Leaf? || cut == 0 {
      SearchEnds(data, t, cur, lim, cut, len0, len1, maxLen);
      NoNodes();
      NoneEqual(data, cur, lim);
    } else {
      var len := Len(data, t.at, cur, lim);
      var best := if maxLen < len then len else maxLen;
      SearchVisits(data, t, cur, lim, cut, len0, len1, maxLen);
      Subtrees(data, t, i, lim);
      if len == lim {
        NoNodes();
        NoneEqual(data, cur, lim);
        EqualOneMore(data, t.at, {}, cur, lim);
        assert {t.at} + {} == {t.at};
      } else if At(data, t.at, len) < At(data, cur, len) {
        NearRight(data, t, cur, lim, len0, len1);
        SplitLoses(data, t.right, t.at, cur, lim, cut - 1, len0, len, best);
        var s1 := SearchTree(data, t.right, cur, lim, cut - 1, len0, len, best);
        NodesAre(t.at, t.left, s1.left);
        OneSide(data, t.at, Nodes(t.left), t.right, cur, lim, cut - 1, Nodes(s1.left), Nodes(s1.right));
      } else {
        NearLeft(data, t, cur, lim, len0, len1);
        SplitLoses(data, t.left, t.at, cur, lim, cut - 1, len, len1, best);
        var s1 := SearchTree(data, t.left, cur, lim, cut - 1, len, len1, best);
        NodesAre(t.at, s1.right, t.right);
        OneSide(data, t.at, Nodes(t.right), t.left, cur, lim, cut - 1, Nodes(s1.left), Nodes(s1.right));
        assert Nodes(t) == {t.at} + Nodes(t.right) + Nodes(t.left);
        assert Nodes(s1.left) + ({t.at} + Nodes(s1.right) + Nodes(t.right))
               == {t.at} + Nodes(t.right) + Nodes(s1.left) + Nodes(s1.right);
      }
    }
  }

  lemma NoneEqual(data: seq<Byte>, cur: nat, lim: nat)
    ensures EqualOnes(data, {}, cur, lim) == {}
  {
  }

  lemma EqualOneMore(data: seq<Byte>, x: nat, s: set<nat>, cur: nat, lim: nat)
    ensures EqualOnes(data, {x} + s, cur, lim)
            == (if Len(data, x, cur, lim) == lim then {x} else {}) + EqualOnes(data, s, cur, lim)
  {
    hide Len;
  }

  /** The side that the search goes to loses what it loses; root and other side stay. */
  lemma OneSide(data: seq<Byte>, at: nat, other: set<nat>, side: Tree, cur: nat, lim: nat, n: nat,
                left: set<nat>, right: set<nat>)
    requires at !in Nodes(side) && at !in other && other !! Nodes(side) && Len(data, at, cur, lim) != lim
    requires left + right == Nodes(side) - Nodes(Reached(data, side, cur, lim, n))
                             - EqualOnes(data, PathNodes(data, side, cur, lim, n), cur, lim)
    ensures {at} + other + left + right
            == {at} + other + Nodes(side) - Nodes(Reached(data, side, cur, lim, n))
               - EqualOnes(data, {at} + PathNodes(data, side, cur, lim, n), cur, lim)
  {
    hide Len, Nodes, PathNodes, Reached;
    PathIsShort(data, side, cur, lim, n);
    ReachedInside(data, side, cur, lim, n);
    EqualOneMore(data, at, PathNodes(data, side, cur, lim, n), cur, lim);
    KeepBoth({at} + other, Nodes(side), left, right, Nodes(Reached(data, side, cur, lim, n)),
             EqualOnes(data, PathNodes(data, side, cur, lim, n), cur, lim));
  }

  lemma KeepBoth(kept: set<nat>, side: set<nat>, left: set<nat>, right: set<nat>, reached: set<nat>, equal: set<nat>)
    requires kept !! side && reached <= side && equal <= side && left + right == side - reached - equal
    ensures kept + left + right == kept + side - reached - equal
  {
    assert kept + left + right == kept + (left + right);
  }

  lemma NoNodes()
    ensures Nodes(Leaf) == {}
  {
  }

  lemma NodesAre(at: nat, left: Tree, right: Tree)
    ensures Nodes(Node(at, left, right)) == {at} + Nodes(left) + Nodes(right)
  {
  }

  /** Both subtrees are search trees of their own older strings. */
  lemma Subtrees(data: seq<Byte>, t: Tree, i: nat, lim: nat)
    requires SearchTreeOf(data, t, i, lim) && t.Node?
    ensures SearchTreeOf(data, t.left, t.at, lim) && SearchTreeOf(data, t.right, t.at, lim) && Ordered(data, t, lim)
    ensures Nodes(t) == {t.at} + Nodes(t.left) + Nodes(t.right)
    ensures Nodes(t.left) !! Nodes(t.right) && t.at !in Nodes(t.left) && t.at !in Nodes(t.right)
  {
    hide Leq;
    OlderNodes(t.left, t.at);
    OlderNodes(t.right, t.at);
  }

  lemma {:induction false} ReachedInside(data: seq<Byte>, t: Tree, cur: nat, lim: nat, n: nat)
    ensures Nodes(Reached(data, t, cur, lim, n)) <= Nodes(t)
    decreases t
  {
    hide Len, At;
    if t.Node? && n > 0 {
      ReachedInside(data, t.left, cur, lim, n - 1);
      ReachedInside(data, t.right, cur, lim, n - 1);
    }
  }

  lemma ScanEmpty(data: seq<Byte>, s: set<nat>, cur: nat, lim: nat, maxLen: nat)
    ensures Scan(data, s, 0, cur, lim, maxLen) == []
  {
  }
}
