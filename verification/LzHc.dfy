/** The hash-chain match finder Hc4: one cell per position, chains instead of trees. */
module LzHc {
  import opened Words
  import opened LzSon
  import opened LzChain
  import opened LzWindow
  import opened LzBuckets
  import opened LzMatches

  /** The tables with a chain array of one cell per slot; the heads are those of Bt4. */
  predicate SizedHc(c: Config, v: View, tb: Tables) {
    HeadsSized(c, tb) && c.bytes == 4 && v.Valid() && |tb.son| == v.cyclicSize
  }

  /** Hc4_MatchFinder_Skip for one position, before MOVE_POS. */
  function SkipHc(c: Config, data: seq<Byte>, v: View, tb: Tables, lim: nat): (r: Tables)
    requires SizedHc(c, v, tb) && 4 <= lim
    ensures SizedHc(c, v, r)
  {
    EnterHeads(c, data, v.cur, v.pos, tb).(son := tb.son[v.cyclicPos := tb.heads[c.MainHash(data, v.cur)]])
  }

  /** Hc4_MatchFinder_GetMatches before MOVE_POS. */
  function GetMatchesHc(c: Config, cutValue: UInt32, data: seq<Byte>, v: View, tb: Tables, lim: nat): Outcome
    requires SizedHc(c, v, tb) && 4 <= lim
  {
    var ref := tb.heads[c.MainHash(data, v.cur)];
    var cand := HeadMatches(c, data, v, tb, lim);
    var son := tb.son[v.cyclicPos := ref];
    var tb' := EnterHeads(c, data, v.cur, v.pos, tb).(son := son);
    if cand.first != [] && cand.maxLen == lim then
      Outcome(tb', cand.first)
    else
      HeadMatchesBounded(c, data, v, tb, lim);
      Outcome(tb', cand.first + FastChain(data, v, son, ref, cutValue, lim, Threshold(c, cand.maxLen)))
  }

  /** From every state, GetMatches and Skip(1) leave the same tables. */
  lemma GetIsSkipHc(c: Config, cutValue: UInt32, data: seq<Byte>, v: View, tb: Tables, lim: nat)
    requires SizedHc(c, v, tb) && 4 <= lim
    ensures GetMatchesHc(c, cutValue, data, v, tb, lim).tables == SkipHc(c, data, v, tb, lim)
  {
    hide EnterHeads, FastChain, HeadMatches, Config.MainHash;
  }

  // ---- The chains ----

  /** The chain of bucket `h` lists exactly the window's strings before `b` that hash to `h`, newest first. */
  ghost predicate ChainOk(c: Config, data: seq<Byte>, v: View, b: nat, h: nat, ref: UInt32, son: seq<UInt32>,
                          chain: seq<nat>)
    requires c.Ok() && v.Valid() && |son| == v.cyclicSize
  {
    && RepChain(son, ref, chain, v) && Descending(chain, b)
    && forall x: nat :: x in Elements(chain) <==> v.cur - v.cyclicSize < x < b && c.MainHash(data, x) == h
  }

  ghost predicate Chains(c: Config, data: seq<Byte>, v: View, b: nat, heads: seq<UInt32>, son: seq<UInt32>,
                         chains: seq<seq<nat>>)
    requires c.Ok() && v.Valid() && |son| == v.cyclicSize
  {
    && |heads| == |chains| == c.buckets
    && forall h :: 0 <= h < c.buckets ==> ChainOk(c, data, v, b, h, heads[h], son, chains[h])
  }

  /** Writing the current slot leaves the chains of older strings alone. */
  lemma {:induction false} ChainWrite(son: seq<UInt32>, ref': UInt32, ref: UInt32, chain: seq<nat>, b: nat, v: View)
    requires v.Valid() && |son| == v.cyclicSize && b <= v.cur
    requires RepChain(son, ref, chain, v) && Descending(chain, b)
    ensures RepChain(son[v.cyclicPos := ref'], ref, chain, v)
    decreases |chain|
  {
    hide View.Delta;
    if chain != [] {
      ChainWrite(son, ref', son[v.Slot(v.Delta(ref))], chain[1..], chain[0], v);
    }
  }

  lemma {:induction false} DescendingWeaken(chain: seq<nat>, b: int, b': int)
    requires Descending(chain, b) && b <= b'
    ensures Descending(chain, b')
    decreases |chain|
  {
  }

  lemma ChainInserts(c: Config, data: seq<Byte>, v: View, h: nat, ref: UInt32, son: seq<UInt32>, chain: seq<nat>)
    requires c.Ok() && v.Valid() && |son| == v.cyclicSize && h == c.MainHash(data, v.cur)
    requires ChainOk(c, data, v, v.cur, h, ref, son, chain)
    ensures ChainOk(c, data, v, v.cur + 1, h, v.pos, son[v.cyclicPos := ref], [v.cur] + chain)
  {
    hide Config.MainHash, View.Delta;
    ChainWrite(son, ref, ref, chain, v.cur, v);
    CurrentRef(v);
    assert ([v.cur] + chain)[1..] == chain;
  }

  lemma ChainUntouched(c: Config, data: seq<Byte>, v: View, h: nat, ref': UInt32, ref: UInt32, son: seq<UInt32>,
                       chain: seq<nat>)
    requires c.Ok() && v.Valid() && |son| == v.cyclicSize && h != c.MainHash(data, v.cur)
    requires ChainOk(c, data, v, v.cur, h, ref, son, chain)
    ensures ChainOk(c, data, v, v.cur + 1, h, ref, son[v.cyclicPos := ref'], chain)
  {
    hide Config.MainHash, View.Delta, RepChain, Descending;
    ChainWrite(son, ref', ref, chain, v.cur, v);
    DescendingWeaken(chain, v.cur, v.cur + 1);
  }

  lemma ChainsInsert(c: Config, data: seq<Byte>, v: View, heads: seq<UInt32>, son: seq<UInt32>, chains: seq<seq<nat>>)
    requires c.Ok() && v.Valid() && |son| == v.cyclicSize && Chains(c, data, v, v.cur, heads, son, chains)
    ensures var h0 := c.MainHash(data, v.cur);
            Chains(c, data, v, v.cur + 1, heads[h0 := v.pos], son[v.cyclicPos := heads[h0]],
                   chains[h0 := [v.cur] + chains[h0]])
  {
    hide ChainOk, Config.MainHash;
    var h0 := c.MainHash(data, v.cur);
    ChainInserts(c, data, v, h0, heads[h0], son, chains[h0]);
    forall h | 0 <= h < c.buckets && h != h0
      ensures ChainOk(c, data, v, v.cur + 1, h, heads[h], son[v.cyclicPos := heads[h0]], chains[h])
    {
      ChainUntouched(c, data, v, h, heads[h0], heads[h], son, chains[h]);
    }
  }

  /** The chain without the strings before `lo`. */
  function PruneChain(chain: seq<nat>, lo: int): seq<nat> {
    if chain == [] || chain[0] < lo then [] else [chain[0]] + PruneChain(chain[1..], lo)
  }

  lemma {:induction false} PruneChainElements(chain: seq<nat>, b: int, lo: int)
    requires Descending(chain, b)
    ensures Descending(PruneChain(chain, lo), b)
    ensures forall x: nat :: x in Elements(PruneChain(chain, lo)) <==> x in Elements(chain) && lo <= x
    decreases |chain|
  {
    if chain != [] {
      PruneChainElements(chain[1..], chain[0], lo);
      ElementsBelow(chain[1..], chain[0]);
      if lo <= chain[0] {
        assert PruneChain(chain, lo)[1..] == PruneChain(chain[1..], lo);
      }
    }
  }

  lemma {:induction false} NextRepChain(v: View, son: seq<UInt32>, ref: UInt32, chain: seq<nat>, b: int)
    requires v.Valid() && v.pos < MAX_VAL_FOR_NORMALIZE && |son| == v.cyclicSize
    requires RepChain(son, ref, chain, v) && Descending(chain, b) && b <= v.cur + 1
    ensures NextView(v).Valid()
    ensures RepChain(son, ref, PruneChain(chain, v.cur + 2 - v.cyclicSize), NextView(v))
    decreases |chain|
  {
    hide View.Delta, View.Slot, NextView;
    var lo := v.cur + 2 - v.cyclicSize;
    NextViewKeeps(v);
    NextSlot(v);
    NextDelta(v, ref);
    NextFields(v);
    if chain != [] {
      NextRepChain(v, son, son[v.Slot(v.Delta(ref))], chain[1..], chain[0]);
      if lo <= chain[0] {
        assert PruneChain(chain, lo)[1..] == PruneChain(chain[1..], lo);
      }
    }
  }

  lemma NextSlot(v: View)
    requires v.Valid() && v.pos < MAX_VAL_FOR_NORMALIZE
    ensures NextView(v).Valid() && NextView(v).cyclicSize == v.cyclicSize
    ensures forall d :: 0 <= d < v.cyclicSize - 1 ==> NextView(v).Slot(d + 1) == v.Slot(d)
  {
  }

  lemma {:induction false} RenumberKeepsChain(v: View, sub: UInt32, son: seq<UInt32>, ref: UInt32, chain: seq<nat>)
    requires v.Valid() && |son| == v.cyclicSize && sub <= v.pos - v.cyclicSize
    requires RepChain(son, ref, chain, v)
    ensures RepChain(RenumberAll(sub, son), Renumber(sub, ref), chain, v.(pos := v.pos - sub))
    decreases |chain|
  {
    hide View.Delta, View.Slot, Renumber;
    RenumberKeepsDelta(v, sub, ref);
    SlotsKeep(v, sub);
    if chain != [] {
      RenumberKeepsChain(v, sub, son, son[v.Slot(v.Delta(ref))], chain[1..]);
    }
  }
}
