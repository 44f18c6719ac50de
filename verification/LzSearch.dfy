/** The search loops as they run: in place on the son array. */
module LzSearch {
  import opened Words
  import opened LzTree
  import opened LzSon
  import opened LzChain
  import opened LzHc

  /** The byte-by-byte comparison of two strings of the input, from byte `k` on. */
  method Compare(data: seq<Byte>, i: nat, j: nat, k: nat, lim: nat) returns (len: nat)
    requires k <= lim && i + lim <= |data| && j + lim <= |data|
    ensures len == Lcp(data, i, j, k, lim)
  {
    len := k;
    while len != lim && data[i + len] == data[j + len]
      invariant k <= len <= lim
      invariant Lcp(data, i, j, k, lim) == Lcp(data, i, j, len, lim)
    {
      len := len + 1;
    }
  }

  /** One assignment through a pointer into the array. */
  method Store(son: array<UInt32>, at: nat, ref: UInt32)
    requires at < son.Length
    modifies son
    ensures son[..] == old(son[..])[at := ref]
  {
    son[at] := ref;
  }

  method StoreBoth(son: array<UInt32>, at: nat, ref: UInt32, at': nat, ref': UInt32)
    requires at < son.Length && at' < son.Length
    modifies son
    ensures son[..] == old(son[..])[at := ref][at' := ref']
  {
    son[at] := ref;
    son[at'] := ref';
  }

  /** One cell after the other is copied. */
  method Splice(son: array<UInt32>, to: nat, from: nat, to': nat, from': nat)
    requires to < son.Length && from < son.Length && to' < son.Length && from' < son.Length
    modifies son
    ensures var son1 := old(son[..])[to := old(son[from])];
            son[..] == son1[to' := son1[from']]
  {
    son[to] := son[from];
    son[to'] := son[from'];
  }

  /** GetMatchesSpec1: inserts the current string into the tree `t` hanging from `curMatch`
      and reports the matches met on the way. `t` and its shape are ghost. */
  method GetMatchesSpec1(data: seq<Byte>, v: View, son: array<UInt32>, curMatch: UInt32,
                         lim: nat, cutValue: nat, maxLen: nat, ghost t: Tree)
    returns (found: seq<Match>)
    requires v.Valid() && son.Length == 2 * v.cyclicSize && v.cur + lim <= |data| && maxLen < lim
    requires Rep(son[..], curMatch, t, v) && OlderThan(t, v.cur) && Distinct(t)
    modifies son
    ensures Searched(son[..], found) ==
            GetLoop(data, v, old(son[..]), 2 * v.cyclicPos + 1, 2 * v.cyclicPos, curMatch, cutValue, 0, 0, lim, maxLen)
  {
    hide Dangling, GetLoop, SkipLoop, Lcp, View.Pair, View.Slot, View.Delta, Rep, OlderThan, Distinct, Nodes, CellOf,
         Onward;
    var ptr0: nat, ptr1: nat := 2 * v.cyclicPos + 1, 2 * v.cyclicPos;
    var len0: nat, len1: nat, best: nat, cut: nat, match_ := 0, 0, maxLen, cutValue, curMatch;
    found := [];
    ghost var goal := GetLoop(data, v, son[..], ptr0, ptr1, match_, cut, len0, len1, lim, best);
    ghost var cells, rest, b, q0, q1 := son[..], t, v.cur, v.cur, v.cur;
    DanglingAtRoot(cells, curMatch, t, v);
    OnwardStarts(goal);
    while true
      invariant cells == son[..] && ptr0 < son.Length && ptr1 < son.Length && len0 < lim && len1 < lim && best < lim
      invariant b <= v.cur && Dangling(cells, ptr0, ptr1, q0, q1, match_, rest, b, v)
      invariant goal == Onward(found, GetLoop(data, v, cells, ptr0, ptr1, match_, cut, len0, len1, lim, best))
      decreases cut
    {
      LoopFollowsTree(cells, ptr0, ptr1, q0, q1, match_, rest, b, v);
      if cut == 0 || v.Delta(match_) >= v.cyclicSize {
        GetEnds(data, v, cells, ptr0, ptr1, match_, cut, len0, len1, lim, best);
        StoreBoth(son, ptr0, EMPTY, ptr1, EMPTY);
        OnwardEnds(found, son[..]);
        return;
      }
      GetUnfolds(data, v, cells, ptr0, ptr1, match_, cut, len0, len1, lim, best);
      cut := cut - 1;
      var delta := v.Delta(match_);
      var pb := v.cur - delta;
      var pair := v.Pair(pb);
      var start := Min(len0, len1);
      var len := Compare(data, pb, v.cur, start, lim);
      ghost var soFar, step := found, if start < len && best < len then [Match(len, delta - 1)] else [];
      if start < len && best < len {
        best := len;
        found := found + [Match(len, delta - 1)];
        if len == lim {
          Splice(son, ptr1, pair, ptr0, pair + 1);
          OnwardReplaces(soFar, step, son[..]);
          return;
        }
      }
      if data[pb + len] < data[v.cur + len] {
        LoopGoesRight(cells, ptr0, ptr1, q0, q1, match_, rest, b, v);
        Store(son, ptr1, match_);
        cells := cells[ptr1 := match_];
        ptr1 := pair + 1;
        match_ := son[ptr1];
        len1 := len;
        q1, b, rest := rest.at, rest.at, rest.right;
      } else {
        LoopGoesLeft(cells, ptr0, ptr1, q0, q1, match_, rest, b, v);
        Store(son, ptr0, match_);
        cells := cells[ptr0 := match_];
        ptr0 := pair;
        match_ := son[ptr0];
        len0 := len;
        q0, b, rest := rest.at, rest.at, rest.left;
      }
      OnwardStep(soFar, step, GetLoop(data, v, cells, ptr0, ptr1, match_, cut, len0, len1, lim, best));
    }
  }

  /** The outcome of the rest of a search, with what was found before it. */
  function Onward(found: seq<Match>, r: Searched): Searched {
    Searched(r.son, found + r.found)
  }

  lemma OnwardStarts(r: Searched)
    ensures Onward([], r) == r
  {
  }

  lemma OnwardEnds(found: seq<Match>, son: seq<UInt32>)
    ensures Onward(found, Searched(son, [])) == Searched(son, found)
  {
  }

  lemma OnwardReplaces(found: seq<Match>, step: seq<Match>, son: seq<UInt32>)
    ensures Onward(found, Searched(son, step)) == Searched(son, found + step)
  {
  }

  lemma OnwardStep(found: seq<Match>, step: seq<Match>, r: Searched)
    ensures Onward(found, Searched(r.son, step + r.found)) == Onward(found + step, r)
    ensures step == [] ==> found + step == found
  {
    Assoc(found, step, r.found);
  }

  /** SkipMatchesSpec: the same insertion without reporting. */
  method SkipMatchesSpec(data: seq<Byte>, v: View, son: array<UInt32>, curMatch: UInt32,
                         lim: nat, cutValue: nat, ghost t: Tree)
    requires v.Valid() && son.Length == 2 * v.cyclicSize && v.cur + lim <= |data| && 0 < lim
    requires Rep(son[..], curMatch, t, v) && OlderThan(t, v.cur) && Distinct(t)
    modifies son
    ensures son[..] ==
            SkipLoop(data, v, old(son[..]), 2 * v.cyclicPos + 1, 2 * v.cyclicPos, curMatch, cutValue, 0, 0, lim)
  {
    hide Dangling, GetLoop, SkipLoop, Lcp, View.Pair, View.Slot, View.Delta, Rep, OlderThan, Distinct, Nodes, CellOf;
    var ptr0: nat, ptr1: nat := 2 * v.cyclicPos + 1, 2 * v.cyclicPos;
    var len0: nat, len1: nat, cut: nat, match_ := 0, 0, cutValue, curMatch;
    ghost var goal := SkipLoop(data, v, son[..], ptr0, ptr1, match_, cut, len0, len1, lim);
    ghost var cells, rest, b, q0, q1 := son[..], t, v.cur, v.cur, v.cur;
    DanglingAtRoot(cells, curMatch, t, v);
    while true
      invariant cells == son[..] && ptr0 < son.Length && ptr1 < son.Length && len0 < lim && len1 < lim
      invariant b <= v.cur && Dangling(cells, ptr0, ptr1, q0, q1, match_, rest, b, v)
      invariant goal == SkipLoop(data, v, cells, ptr0, ptr1, match_, cut, len0, len1, lim)
      decreases cut
    {
      LoopFollowsTree(cells, ptr0, ptr1, q0, q1, match_, rest, b, v);
      if cut == 0 || v.Delta(match_) >= v.cyclicSize {
        SkipEnds(data, v, cells, ptr0, ptr1, match_, cut, len0, len1, lim);
        StoreBoth(son, ptr0, EMPTY, ptr1, EMPTY);
        return;
      }
      SkipUnfolds(data, v, cells, ptr0, ptr1, match_, cut, len0, len1, lim);
      cut := cut - 1;
      var pb := v.cur - v.Delta(match_);
      var pair := v.Pair(pb);
      var len := Compare(data, pb, v.cur, Min(len0, len1), lim);
      if len == lim {
        Splice(son, ptr1, pair, ptr0, pair + 1);
        return;
      }
      if data[pb + len] < data[v.cur + len] {
        LoopGoesRight(cells, ptr0, ptr1, q0, q1, match_, rest, b, v);
        Store(son, ptr1, match_);
        cells := cells[ptr1 := match_];
        ptr1 := pair + 1;
        match_ := son[ptr1];
        len1 := len;
        q1, b, rest := rest.at, rest.at, rest.right;
      } else {
        LoopGoesLeft(cells, ptr0, ptr1, q0, q1, match_, rest, b, v);
        Store(son, ptr0, match_);
        cells := cells[ptr0 := match_];
        ptr0 := pair;
        match_ := son[ptr0];
        len0 := len;
        q0, b, rest := rest.at, rest.at, rest.left;
      }
    }
  }

  /** One candidate of the chain: the length it reaches when that is more than `best`, else `best`. */
  method Improve(data: seq<Byte>, pb: nat, cur: nat, best: nat, lim: nat) returns (len: nat)
    requires best < lim && pb + lim <= |data| && cur + lim <= |data|
    ensures len == if best < Len(data, pb, cur, lim) then Len(data, pb, cur, lim) else best
  {
    hide Len, Lcp;
    if data[cur + best] == data[pb + best] {
      len := Compare(data, pb, cur, 0, lim);
      LenIsLcp(data, pb, cur, lim);
      if len < best {
        len := best;
      }
    } else {
      ShortOf(data, pb, cur, best, lim);
      len := best;
    }
  }

  /** Hc_GetMatchesSpec: enters the current string in its chain and reports the matches met.
      `chain` is ghost. */
  method HcGetMatchesSpec(data: seq<Byte>, v: View, son: array<UInt32>, curMatch: UInt32,
                          lim: nat, cutValue: UInt32, maxLen: nat, ghost chain: seq<nat>)
    returns (found: seq<Match>)
    requires v.Valid() && son.Length == v.cyclicSize && v.cur + lim <= |data| && maxLen < lim
    requires RepChain(son[..], curMatch, chain, v) && Descending(chain, v.cur)
    modifies son
    ensures son[..] == old(son[..])[v.cyclicPos := curMatch]
    ensures found == FastChain(data, v, son[..], curMatch, cutValue, lim, maxLen)
  {
    hide FastChain, View.Delta, View.Slot, Lcp, Len, RepChain, Descending, Decremented;
    ChainWrite(son[..], curMatch, curMatch, chain, v.cur, v);
    Store(son, v.cyclicPos, curMatch);
    var best: nat, cut: UInt32, match_ := maxLen, cutValue, curMatch;
    found := [];
    ghost var rest, cells := chain, son[..];
    ghost var goal := FastChain(data, v, cells, curMatch, cutValue, lim, maxLen);
    assert [] + goal == goal;
    while true
      invariant best < lim && son[..] == cells && RepChain(cells, match_, rest, v)
      invariant goal == found + FastChain(data, v, cells, match_, cut, lim, best)
      decreases |rest|
    {
      RepChainRoot(cells, match_, rest, v);
      var delta := v.Delta(match_);
      if delta >= v.cyclicSize {
        FastEnds(data, v, cells, match_, cut, lim, best);
        assert found + [] == found;
        return;
      }
      FastVisits(data, v, cells, match_, cut, lim, best);
      match_ := son[v.Slot(delta)];
      rest := rest[1..];
      ghost var soFar := found;
      var len := Improve(data, v.cur - delta, v.cur, best, lim);
      if best < len {
        best := len;
        found := found + [Match(len, delta - 1)];
        if len == lim {
          return;
        }
      }
      cut := Decremented(cut);
      if cut == 0 {
        return;
      }
      Assoc(soFar, found[|soFar|..], FastChain(data, v, cells, match_, cut, lim, best));
    }
  }

  lemma LenIsLcp(data: seq<Byte>, i: int, j: int, lim: nat)
    ensures Len(data, i, j, lim) == Lcp(data, i, j, 0, lim)
  {
  }

  /** A difference at byte `k` bounds the common prefix. */
  lemma ShortOf(data: seq<Byte>, i: int, j: int, k: nat, lim: nat)
    requires At(data, i, k) != At(data, j, k) && k < lim
    ensures Len(data, i, j, lim) <= k
  {
  }

  lemma RepChainRoot(son: seq<UInt32>, ref: UInt32, chain: seq<nat>, v: View)
    requires v.Valid() && |son| == v.cyclicSize && RepChain(son, ref, chain, v)
    ensures chain == [] <==> !v.InWindow(ref)
    ensures chain != [] ==> v.Delta(ref) <= v.cur && RepChain(son, son[v.Slot(v.Delta(ref))], chain[1..], v)
  {
  }
}
