/** The hash-chain search: the optimised loop of Hc_GetMatchesSpec, the simple loop kept in its
    comment, and the naive search both agree with. */
module LzChain {
  import opened Words
  import opened LzTree
  import opened LzSon

  /** The simple loop. */
  function SimpleChain(data: seq<Byte>, v: View, son: seq<UInt32>, curMatch: UInt32, cut: nat, lim: nat,
                       maxLen: nat): seq<Match>
    requires v.Valid() && |son| == v.cyclicSize && maxLen < lim
    decreases cut
  {
    if cut == 0 || !v.InWindow(curMatch) then []
    else
      var delta := v.Delta(curMatch);
      var pb := v.cur - delta;
      var next := son[v.Slot(delta)];
      if At(data, pb, maxLen) == At(data, v.cur, maxLen) && At(data, pb, 0) == At(data, v.cur, 0) then
        var len := Lcp(data, pb, v.cur, 1, lim);
        if maxLen < len then
          [Match(len, delta - 1)] + if len == lim then [] else SimpleChain(data, v, son, next, cut - 1, lim, len)
        else
          SimpleChain(data, v, son, next, cut - 1, lim, maxLen)
      else
        SimpleChain(data, v, son, next, cut - 1, lim, maxLen)
  }

  /** `--cutValue` */
  function Decremented(cut: UInt32): UInt32 { (cut - 1) % 0x1_0000_0000 }

  /** The optimised loop. Its counter is tested after it is decremented, as a 32-bit word. */
  function FastChain(data: seq<Byte>, v: View, son: seq<UInt32>, curMatch: UInt32, cut: UInt32, lim: nat,
                     maxLen: nat): seq<Match>
    requires v.Valid() && |son| == v.cyclicSize && maxLen < lim
    decreases Decremented(cut)
  {
    if !v.InWindow(curMatch) then []
    else
      var delta := v.Delta(curMatch);
      var pb := v.cur - delta;
      var next := son[v.Slot(delta)];
      var cut' := Decremented(cut);
      if At(data, v.cur, maxLen) == At(data, pb, maxLen) then
        var len := Lcp(data, pb, v.cur, 0, lim);
        if len == lim then
          [Match(lim, delta - 1)]
        else if maxLen < len then
          [Match(len, delta - 1)] + if cut' == 0 then [] else FastChain(data, v, son, next, cut', lim, len)
        else if cut' == 0 then [] else FastChain(data, v, son, next, cut', lim, maxLen)
      else if cut' == 0 then [] else FastChain(data, v, son, next, cut', lim, maxLen)
  }

  /** The number of candidates the optimised loop visits at most. */
  function Visits(cut: UInt32): (n: nat)
    ensures n >= 1
  {
    if cut == 0 then 0x1_0000_0000 else cut
  }

  /** One visit of either loop: their quick byte checks never reject an improvement. */
  lemma SimpleVisits(data: seq<Byte>, v: View, son: seq<UInt32>, curMatch: UInt32, cut: nat, lim: nat, maxLen: nat)
    requires v.Valid() && |son| == v.cyclicSize && maxLen < lim && cut > 0 && v.InWindow(curMatch)
    ensures var delta := v.Delta(curMatch);
            var len := Len(data, v.cur - delta, v.cur, lim);
            var next := son[v.Slot(delta)];
            SimpleChain(data, v, son, curMatch, cut, lim, maxLen) ==
              if maxLen < len then
                [Match(len, delta - 1)] + if len == lim then [] else SimpleChain(data, v, son, next, cut - 1, lim, len)
              else
                SimpleChain(data, v, son, next, cut - 1, lim, maxLen)
  {
    hide View.Delta, View.Slot;
    var pb := v.cur - v.Delta(curMatch);
    var len := Len(data, pb, v.cur, lim);
    if At(data, pb, 0) == At(data, v.cur, 0) {
      LcpStartsLater(data, pb, v.cur, 1, lim);
    }
  }

  lemma FastVisits(data: seq<Byte>, v: View, son: seq<UInt32>, curMatch: UInt32, cut: UInt32, lim: nat, maxLen: nat)
    requires v.Valid() && |son| == v.cyclicSize && maxLen < lim && v.InWindow(curMatch)
    ensures var delta := v.Delta(curMatch);
            var len := Len(data, v.cur - delta, v.cur, lim);
            var next := son[v.Slot(delta)];
            var cut' := Decremented(cut);
            FastChain(data, v, son, curMatch, cut, lim, maxLen) ==
              if maxLen < len then
                [Match(len, delta - 1)] + if len == lim || cut' == 0 then []
                    else FastChain(data, v, son, next, cut', lim, len)
              else if cut' == 0 then [] else
                FastChain(data, v, son, next, cut', lim, maxLen)
  {
    hide View.Delta, View.Slot;
  }

  lemma FastEnds(data: seq<Byte>, v: View, son: seq<UInt32>, curMatch: UInt32, cut: UInt32, lim: nat, maxLen: nat)
    requires v.Valid() && |son| == v.cyclicSize && maxLen < lim && !v.InWindow(curMatch)
    ensures FastChain(data, v, son, curMatch, cut, lim, maxLen) == []
  {
  }

  lemma SimpleEnds(data: seq<Byte>, v: View, son: seq<UInt32>, curMatch: UInt32, cut: nat, lim: nat, maxLen: nat)
    requires v.Valid() && |son| == v.cyclicSize && maxLen < lim
    requires cut == 0 || !v.InWindow(curMatch)
    ensures SimpleChain(data, v, son, curMatch, cut, lim, maxLen) == []
  {
  }

  lemma {:induction false} FastIsSimple(data: seq<Byte>, v: View, son: seq<UInt32>, curMatch: UInt32, cut: UInt32,
                                        lim: nat, maxLen: nat)
    requires v.Valid() && |son| == v.cyclicSize && maxLen < lim
    ensures FastChain(data, v, son, curMatch, cut, lim, maxLen) ==
            SimpleChain(data, v, son, curMatch, Visits(cut), lim, maxLen)
    decreases Visits(cut)
  {
    hide View.Delta, View.Slot, Len, FastChain, SimpleChain;
    if !v.InWindow(curMatch) {
      FastEnds(data, v, son, curMatch, cut, lim, maxLen);
      SimpleEnds(data, v, son, curMatch, Visits(cut), lim, maxLen);
      return;
    }
    var next := son[v.Slot(v.Delta(curMatch))];
    var len := Len(data, v.cur - v.Delta(curMatch), v.cur, lim);
    var best := if maxLen < len then len else maxLen;
    var cut' := Decremented(cut);
    FastVisits(data, v, son, curMatch, cut, lim, maxLen);
    SimpleVisits(data, v, son, curMatch, Visits(cut), lim, maxLen);
    if best < lim {
      if cut' == 0 {
        SimpleEnds(data, v, son, next, 0, lim, best);
      } else {
        FastIsSimple(data, v, son, next, cut', lim, best);
      }
    }
  }

  /** The optimised loop of Hc_GetMatchesSpec finds what the loop in its comment finds, for every
      chain; only a cutValue of zero differs, which the simple loop takes as no visit at all. */
  lemma SameMatches(data: seq<Byte>, v: View, son: seq<UInt32>, curMatch: UInt32, cut: UInt32, lim: nat, maxLen: nat)
    requires v.Valid() && |son| == v.cyclicSize && maxLen < lim
    ensures cut >= 1 ==>
            FastChain(data, v, son, curMatch, cut, lim, maxLen) == SimpleChain(data, v, son, curMatch, cut, lim, maxLen)
    ensures cut == 0 ==> SimpleChain(data, v, son, curMatch, cut, lim, maxLen) == []
  {
    FastIsSimple(data, v, son, curMatch, cut, lim, maxLen);
  }

  // ---- Chains as values ----

  /** `ref` heads the chain of string indices `chain`, from the newest to the oldest. */
  predicate RepChain(son: seq<UInt32>, ref: UInt32, chain: seq<nat>, v: View)
    requires v.Valid() && |son| == v.cyclicSize
    decreases |chain|
  {
    if chain == [] then !v.InWindow(ref) && ref <= v.pos
    else
      && v.InWindow(ref) && chain[0] == v.cur - v.Delta(ref)
      && RepChain(son, son[v.Slot(v.Delta(ref))], chain[1..], v)
  }

  ghost predicate Descending(chain: seq<nat>, b: int) {
    chain != [] ==> chain[0] < b && Descending(chain[1..], chain[0])
  }

  function Elements(chain: seq<nat>): set<nat> {
    if chain == [] then {} else {chain[0]} + Elements(chain[1..])
  }

  lemma {:induction false} ElementsBelow(chain: seq<nat>, b: int)
    requires Descending(chain, b)
    ensures forall x :: x in Elements(chain) ==> x < b
    decreases |chain|
  {
    if chain != [] {
      ElementsBelow(chain[1..], chain[0]);
    }
  }

  lemma {:induction false} ElementsPrefix(chain: seq<nat>, n: nat)
    requires n <= |chain|
    ensures Elements(chain[..n]) <= Elements(chain)
    decreases |chain|
  {
    if n > 0 {
      assert chain[..n][1..] == chain[1..][..n - 1];
      ElementsPrefix(chain[1..], n - 1);
    }
  }

  /** The first `cut` candidates of the chain. */
  function Visited(chain: seq<nat>, cut: nat): seq<nat> {
    chain[..if cut < |chain| then cut else |chain|]
  }

  /** The simple loop is the naive search over the first `cut` candidates of its chain. */
  lemma {:induction false} ChainIsScan(data: seq<Byte>, v: View, son: seq<UInt32>, curMatch: UInt32, chain: seq<nat>,
                                       i: nat, cut: nat, lim: nat, maxLen: nat)
    requires v.Valid() && |son| == v.cyclicSize && maxLen < lim
    requires RepChain(son, curMatch, chain, v) && Descending(chain, i)
    ensures SimpleChain(data, v, son, curMatch, cut, lim, maxLen) ==
            Scan(data, Elements(Visited(chain, cut)), i, v.cur, lim, maxLen)
    decreases |chain|
  {
    hide View.Delta, View.Slot, Len, Scan, SimpleChain, Descending, Elements, Visited;
    if cut == 0 || chain == [] {
      VisitedNone(chain, cut);
      SimpleEnds(data, v, son, curMatch, cut, lim, maxLen);
      ScanStartsLower(data, {}, i, 0, v.cur, lim, maxLen);
      ScanEmpty(data, {}, v.cur, lim, maxLen);
      return;
    }
    var x := chain[0];
    var len := Len(data, x, v.cur, lim);
    var best := if maxLen < len then len else maxLen;
    var rest := Elements(Visited(chain[1..], cut - 1));
    VisitedTail(chain, cut, i);
    SimpleVisits(data, v, son, curMatch, cut, lim, maxLen);
    ScanFirst(data, rest, x, i, v.cur, lim, maxLen);
    if len == lim {
      ScanExhausted(data, rest, x, v.cur, lim, best);
    } else {
      ChainIsScan(data, v, son, son[v.Slot(v.Delta(curMatch))], chain[1..], x, cut - 1, lim, best);
    }
  }

  /** The naive search with a newest candidate set apart. */
  lemma ScanFirst(data: seq<Byte>, rest: set<nat>, x: nat, i: nat, cur: nat, lim: nat, maxLen: nat)
    requires x < i && forall y :: y in rest ==> y < x
    ensures var len := Len(data, x, cur, lim);
            Scan(data, {x} + rest, i, cur, lim, maxLen) ==
              if maxLen < len then [Match(len, cur - x - 1)] + Scan(data, rest, x, cur, lim, len)
              else Scan(data, rest, x, cur, lim, maxLen)
  {
    hide Len, Scan;
    var len := Len(data, x, cur, lim);
    ScanStartsLower(data, {x} + rest, i, x + 1, cur, lim, maxLen);
    ScanUnfolds(data, {x} + rest, x + 1, cur, lim, maxLen);
    ScanIgnores(data, {x} + rest, rest, x, cur, lim, if maxLen < len then len else maxLen);
  }

  lemma VisitedNone(chain: seq<nat>, cut: nat)
    requires cut == 0 || chain == []
    ensures Elements(Visited(chain, cut)) == {}
  {
  }

  lemma VisitedTail(chain: seq<nat>, cut: nat, i: int)
    requires chain != [] && cut > 0 && Descending(chain, i)
    ensures Elements(Visited(chain, cut)) == {chain[0]} + Elements(Visited(chain[1..], cut - 1))
    ensures chain[0] < i && Descending(chain[1..], chain[0])
    ensures var tail := Elements(Visited(chain[1..], cut - 1)); forall x :: x in tail ==> x < chain[0]
  {
    var tail := Visited(chain[1..], cut - 1);
    assert tail == Visited(chain, cut)[1..];
    ElementsBelow(chain[1..], chain[0]);
    ElementsPrefix(chain[1..], |tail|);
    assert tail == chain[1..][..|tail|];
  }
}
