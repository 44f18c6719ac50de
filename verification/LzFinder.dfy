/** CMatchFinder as it runs: fields and arrays updated in place. */
module LzFinder {
  import opened Words
  import opened LzTree
  import opened LzSon
  import opened LzHash
  import opened LzSearch
  import opened LzWindow
  import opened LzBuckets
  import opened LzMatches
  import opened LzRun
  import opened LzIndex
  import opened LzChain
  import opened LzHc
  import opened LzHcRun

  /** MatchFinder_Normalize3 */
  method Normalize3(sub: UInt32, items: array<UInt32>)
    modifies items
    ensures items[..] == RenumberAll(sub, old(items[..]))
  {
    ghost var before := items[..];
    var i := 0;
    while i < items.Length
      invariant 0 <= i <= items.Length
      invariant forall k :: 0 <= k < i ==> items[k] == Renumber(sub, before[k])
      invariant forall k :: i <= k < items.Length ==> items[k] == before[k]
    {
      var value := items[i];
      items[i] := if value <= sub then EMPTY else value - sub;
      i := i + 1;
    }
  }

  /** `num` positions on. */
  ghost function SkipAll(p: Params, c: Config, data: seq<Byte>, f: Finder, num: nat): Finder
    decreases num
  {
    if num == 0 || !Matching(p, c, data, f) then f else SkipAll(p, c, data, Next(p, c, data, f), num - 1)
  }

  ghost function SkipAllHc(p: Params, c: Config, data: seq<Byte>, f: Finder, num: nat): Finder
    decreases num
  {
    if num == 0 || !MatchingHc(p, c, data, f) then f else SkipAllHc(p, c, data, NextHc(p, c, data, f), num - 1)
  }

  /** The match finder over a directly given input. The tables of the 2-byte and 3-byte
      hashes, the main buckets and the sons are separate arrays here, one allocation in the source. */
  class MatchFinder {
    const data: seq<Byte>
    const p: Params
    const c: Config
    const head2: array<UInt32>
    const head3: array<UInt32>
    const heads: array<UInt32>
    const son: array<UInt32>
    var pos: UInt32
    var posLimit: UInt32
    var streamPos: UInt32
    var lenLimit: nat
    var cyclicPos: nat
    var cur: nat
    var rem: nat
    var ended: bool
    const btMode: bool
    ghost var trees: seq<Tree>
    ghost var chains: seq<seq<nat>>

    function CurrentWindow(): Window
      reads this
    {
      Window(pos, posLimit, streamPos, lenLimit, cyclicPos, cur, rem, ended)
    }

    function CurrentTables(): Tables
      reads head2, head3, heads, son
    {
      Tables(head2[..], head3[..], heads[..], son[..])
    }

    function State(): Finder
      reads this, head2, head3, heads, son
    {
      Finder(CurrentWindow(), CurrentTables())
    }

    function CurrentView(): View
      reads this
    {
      View(p.cyclicSize, cyclicPos, pos, cur)
    }

    predicate Apart()
    {
      head2 != head3 && head2 != heads && head2 != son && head3 != heads && head3 != son && heads != son
    }

    /** The finder invariant, with the trees of the index at the current string. */
    ghost predicate TreesInv(f: Finder, trees: seq<Tree>)
      requires c.Ok()
    {
      FinderInv(p, c, data, f, trees) && f.window.cur <= |data| && trees == IndexTrees(p, c, data, f.window.cur)
    }

    ghost predicate Valid()
      reads this, head2, head3, heads, son
    {
      && Apart() && c.Ok() && c.cutValue < 0x1_0000_0000
      && if btMode then TreesInv(State(), trees) else HcInv(p, c, data, State(), chains)
    }

    /** MatchFinder_Create and MatchFinder_Init. */
    constructor (data: seq<Byte>, p: Params, c: Config, btMode: bool)
      requires p.Ok() && c.Ok() && c.cutValue < 0x1_0000_0000 && p.size == |data| && (btMode || c.bytes == 4)
      ensures Valid() && this.data == data && this.p == p && this.c == c && this.btMode == btMode
      ensures fresh(head2) && fresh(head3) && fresh(heads) && fresh(son)
      ensures State() == Start(p, c, son[..])
    {
      hide FinderInv, HcInv, Init;
      this.data, this.p, this.c, this.btMode := data, p, c, btMode;
      head2 := new UInt32[HASH2_SIZE](_ => EMPTY);
      head3 := new UInt32[HASH3_SIZE](_ => EMPTY);
      heads := new UInt32[c.buckets](_ => EMPTY);
      son := new UInt32[if btMode then 2 * p.cyclicSize else p.cyclicSize];
      var w := Init(p);
      pos, posLimit, streamPos, lenLimit := w.pos, w.posLimit, w.streamPos, w.lenLimit;
      cyclicPos, cur, rem, ended := w.cyclicPos, w.cur, w.rem, w.ended;
      trees, chains := Leaves(c.buckets), NoChains(c.buckets);
      new;
      assert head2[..] == Empties(HASH2_SIZE) && head3[..] == Empties(HASH3_SIZE) && heads[..] == Empties(c.buckets);
      if btMode {
        StartInv(p, c, data, son[..]);
        StartsAtZero(p);
      } else {
        StartHcInv(p, c, data, son[..]);
      }
    }

    /** MatchFinder_SetLimits */
    method SetLimits()
      requires cyclicPos <= p.cyclicSize
      modifies this`posLimit, this`lenLimit
      ensures CurrentWindow() == LzWindow.SetLimits(p, old(CurrentWindow()))
    {
      var limit := MAX_VAL_FOR_NORMALIZE - pos;
      var limit2: int := p.cyclicSize - cyclicPos;
      if limit2 < limit {
        limit := limit2;
      }
      limit2 := (streamPos - pos) % 0x1_0000_0000;
      if limit2 <= p.keepSizeAfter {
        if limit2 > 0 {
          limit2 := 1;
        }
      } else {
        limit2 := limit2 - p.keepSizeAfter;
      }
      if limit2 < limit {
        limit := limit2;
      }
      var len := (streamPos - pos) % 0x1_0000_0000;
      if len > p.matchMaxLen {
        len := p.matchMaxLen;
      }
      lenLimit := len;
      posLimit := (pos + limit) % 0x1_0000_0000;
    }

    /** MatchFinder_ReadBlock */
    method ReadBlock()
      modifies this`rem, this`streamPos, this`ended
      ensures CurrentWindow() == LzWindow.ReadBlock(old(CurrentWindow()))
    {
      if ended {
        return;
      }
      var size := 0xFFFF_FFFF - (streamPos - pos) % 0x1_0000_0000;
      if size > rem {
        size := rem;
      }
      rem := rem - size;
      streamPos := (streamPos + size) % 0x1_0000_0000;
      if rem == 0 {
        ended := true;
      }
    }

    /** MatchFinder_Normalize */
    method Normalize()
      requires Apart()
      modifies this`pos, this`posLimit, this`streamPos, head2, head3, heads, son
      ensures var sub := SubValue(p, old(pos));
              && CurrentWindow() == ReduceOffsets(sub, old(CurrentWindow()))
              && CurrentTables() == RenumberTables(sub, old(CurrentTables()))
    {
      var sub := SubValue(p, pos);
      Normalize3(sub, head2);
      Normalize3(sub, head3);
      Normalize3(sub, heads);
      Normalize3(sub, son);
      posLimit := (posLimit - sub) % 0x1_0000_0000;
      pos := (pos - sub) % 0x1_0000_0000;
      streamPos := (streamPos - sub) % 0x1_0000_0000;
    }

    /** MatchFinder_CheckLimits */
    method CheckLimits()
      requires Apart() && cyclicPos <= p.cyclicSize
      modifies this, head2, head3, heads, son
      ensures trees == old(trees) && chains == old(chains)
      ensures CurrentWindow() == LzWindow.CheckLimits(p, old(CurrentWindow()))
      ensures CurrentTables() == RenumberTables(Shift(p, old(CurrentWindow())), old(CurrentTables()))
    {
      hide LzWindow.SetLimits, LzWindow.ReadBlock, RenumberTables, SubValue;
      RenumberByZero(CurrentWindow(), CurrentTables());
      if pos == MAX_VAL_FOR_NORMALIZE {
        Normalize();
      }
      if !ended && p.keepSizeAfter == (streamPos - pos) % 0x1_0000_0000 {
        ReadBlock();
      }
      if cyclicPos == p.cyclicSize {
        cyclicPos := 0;
      }
      SetLimits();
    }

    /** MOVE_POS */
    method MovePos()
      requires Apart() && cyclicPos < p.cyclicSize
      modifies this, head2, head3, heads, son
      ensures trees == old(trees) && chains == old(chains)
      ensures CurrentWindow() == LzWindow.MovePos(p, old(CurrentWindow()))
      ensures CurrentTables() == RenumberTables(MoveShift(p, old(CurrentWindow())), old(CurrentTables()))
    {
      hide LzWindow.CheckLimits, RenumberTables, Shift;
      RenumberByZero(CurrentWindow(), CurrentTables());
      cyclicPos := cyclicPos + 1;
      cur := cur + 1;
      pos := (pos + 1) % 0x1_0000_0000;
      if pos == posLimit {
        CheckLimits();
      }
    }

    /** MOVE_POS at the end of GetMatches and Skip, once the current string is entered. */
    method MoveOn(ghost before: Finder)
      requires Apart() && c.Ok() && c.cutValue < 0x1_0000_0000 && btMode
      requires TreesInv(before, trees) && before.window.Available() > 0
      requires CurrentWindow() == before.window && CurrentTables() == Entered(p, c, data, before)
      modifies this, head2, head3, heads, son
      ensures Valid() && State() == Next(p, c, data, before) && cur == before.window.cur + 1
    {
      hide LzWindow.MovePos, RenumberTables, Entered, Indexed, Inv, TreesNext;
      MovePos();
      trees := TreesNext(p, c, data, before, trees);
      NextKeepsInv(p, c, data, before, old(trees));
      NextTrees(before, old(trees));
    }

    lemma NextTrees(before: Finder, trees: seq<Tree>)
      requires c.Ok() && TreesInv(before, trees) && before.window.Available() > 0
      ensures Matching(p, c, data, before) && before.window.cur < |data|
      ensures TreesNext(p, c, data, before, trees) == IndexTrees(p, c, data, before.window.cur + 1)
    {
      hide Indexed, Inv, TreesNext, IndexTrees;
      InputRemains(p, before.window);
      TreesAdvance(p, c, data, before, trees);
    }

    /** HASH2_CALC, HASH3_CALC or HASH4_CALC, and entering the position in the tables. */
    method Enter() returns (ref2: UInt32, ref3: UInt32, curMatch: UInt32)
      requires Apart() && HeadsSized(c, CurrentTables())
      modifies head2, head3, heads
      ensures CurrentTables() == EnterHeads(c, data, cur, pos, old(CurrentTables()))
      ensures ref2 == old(head2[H2At(c, data, cur)]) && ref3 == old(head3[H3At(c, data, cur)])
      ensures curMatch == old(heads[c.MainHash(data, cur)])
    {
      hide H2, H3, Main2, Main3, Main4;
      var h2, h3, hv := H2At(c, data, cur), H3At(c, data, cur), c.MainHash(data, cur);
      ref2, ref3, curMatch := head2[h2], head3[h3], heads[hv];
      if c.bytes >= 3 {
        head2[h2] := pos;
      }
      if c.bytes == 4 {
        head3[h3] := pos;
      }
      heads[hv] := pos;
    }

    /** The tree of the current bucket. */
    ghost function CurrentTree(): Tree
      requires c.Ok()
      reads this
    {
      if |trees| == c.buckets then trees[c.MainHash(data, cur)] else Leaf
    }

    /** Bt2_MatchFinder_GetMatches */
    method Bt2GetMatches() returns (found: seq<Match>)
      requires Valid() && btMode && cur < |data| && c.bytes == 2
      modifies this, head2, head3, heads, son
      ensures Valid() && State() == Next(p, c, data, old(State())) && cur == old(cur) + 1
      ensures found == Report(p, c, data, old(State()))
    {
      hide FinderInv, Next, EnterHeads, GetLoop, SkipLoop, H2At, H3At, Config.MainHash, Rep, OlderThan, Distinct;
      ghost var before := State();
      Bounds();
      if lenLimit < 2 {
        MoveOn(before);
        return [];
      }
      BucketTree();
      var v := CurrentView();
      ghost var t := CurrentTree();
      var ref2, ref3, curMatch := Enter();
      found := GetMatchesSpec1(data, v, son, curMatch, lenLimit, c.cutValue, 1, t);
      GetIsSkip(c, data, v, before.tables, lenLimit);
      assert [] + found == found;
      MoveOn(before);
    }

    lemma Bounds()
      requires Valid() && btMode
      ensures Matching(p, c, data, State()) && CurrentView() == ViewOf(p, State().window)
      ensures cur + lenLimit <= |data| && Apart() && (cur < |data| <==> CurrentWindow().Available() > 0)
    {
    }

    lemma BucketTree()
      requires Valid() && btMode && lenLimit >= c.bytes
      ensures c.Ok() && |heads[..]| == c.buckets && CurrentView().Valid() && son.Length == 2 * p.cyclicSize
      ensures var t := CurrentTree();
              Rep(son[..], heads[c.MainHash(data, cur)], t, CurrentView()) && OlderThan(t, cur) && Distinct(t)
    {
      hide Rep, Ordered, OlderThan, Distinct, Config.MainHash, HeadsNewest, Inv;
      var h := c.MainHash(data, cur);
      assert BucketOk(c, data, CurrentView(), cur, lenLimit, h, heads[..][h], son[..], trees[h]);
    }

    /** Head candidates in the window lie inside the input. */
    lemma HeadBounds()
      requires Valid() && btMode && lenLimit >= c.bytes
      ensures var v := CurrentView();
              && (c.bytes >= 3 ==> v.InWindow(head2[H2At(c, data, cur)]) ==> v.Delta(head2[H2At(c, data, cur)]) <= cur)
              && (c.bytes == 4 ==> v.InWindow(head3[H3At(c, data, cur)]) ==> v.Delta(head3[H3At(c, data, cur)]) <= cur)
    {
      hide Buckets, Inv, H2, H3, View.Delta;
      var v := CurrentView();
      var slot2, slot3 := H2At(c, data, cur), H3At(c, data, cur);
      if c.bytes >= 3 {
        assert NewestAt(data, v, cur, Hash2(c, data), slot2, head2[..][slot2]);
      }
      if c.bytes == 4 {
        assert NewestAt(data, v, cur, Hash3(c, data), slot3, head3[..][slot3]);
      }
    }

    /** Bt3_MatchFinder_GetMatches */
    method Bt3GetMatches() returns (found: seq<Match>)
      requires Valid() && btMode && cur < |data| && c.bytes == 3
      modifies this, head2, head3, heads, son
      ensures Valid() && State() == Next(p, c, data, old(State())) && cur == old(cur) + 1
      ensures found == Report(p, c, data, old(State()))
    {
      hide FinderInv, Next, EnterHeads, GetLoop, SkipLoop, H2At, H3At, Config.MainHash, Rep, OlderThan, Distinct,
           View.Delta, Lcp, IndexTrees,
           Matching, RepChain, HcInv;
      ghost var before := State();
      Bounds();
      if lenLimit < 3 {
        MoveOn(before);
        return [];
      }
      BucketTree();
      HeadBounds();
      var v := CurrentView();
      ghost var t := CurrentTree();
      GetIsSkip(c, data, v, before.tables, lenLimit);
      var ref2, ref3, curMatch := Enter();
      var d2 := v.Delta(ref2);
      var maxLen := 2;
      found := [];
      if d2 < p.cyclicSize && data[cur - d2] == data[cur] {
        maxLen := Compare(data, cur - d2, cur, 2, lenLimit);
        found := [Match(maxLen, d2 - 1)];
        if maxLen == lenLimit {
          SkipMatchesSpec(data, v, son, curMatch, lenLimit, c.cutValue, t);
          MoveOn(before);
          return;
        }
      }
      var tail := GetMatchesSpec1(data, v, son, curMatch, lenLimit, c.cutValue, maxLen, t);
      found := found + tail;
      MoveOn(before);
    }

    /** Bt4_MatchFinder_GetMatches */
    method Bt4GetMatches() returns (found: seq<Match>)
      requires Valid() && btMode && cur < |data| && c.bytes == 4
      modifies this, head2, head3, heads, son
      ensures Valid() && State() == Next(p, c, data, old(State())) && cur == old(cur) + 1
      ensures found == Report(p, c, data, old(State()))
    {
      hide FinderInv, Next, EnterHeads, GetLoop, SkipLoop, H2At, H3At, Config.MainHash, Rep, OlderThan, Distinct,
           View.Delta, Lcp;
      ghost var before := State();
      Bounds();
      if lenLimit < 4 {
        MoveOn(before);
        return [];
      }
      BucketTree();
      HeadBounds();
      var v := CurrentView();
      ghost var t := CurrentTree();
      GetIsSkip(c, data, v, before.tables, lenLimit);
      var ref2, ref3, curMatch := Enter();
      var maxLen;
      found, maxLen := TryHeads(v, ref2, ref3, before.tables);
      if found != [] && maxLen == lenLimit {
        SkipMatchesSpec(data, v, son, curMatch, lenLimit, c.cutValue, t);
        MoveOn(before);
        return;
      }
      if maxLen < 3 {
        maxLen := 3;
      }
      var tail := GetMatchesSpec1(data, v, son, curMatch, lenLimit, c.cutValue, maxLen, t);
      found := found + tail;
      MoveOn(before);
    }

    /** The part of Bt4_ and Hc4_MatchFinder_GetMatches that tries the two heads. */
    method TryHeads(v: View, ref2: UInt32, ref3: UInt32, ghost tb: Tables) returns (found: seq<Match>, maxLen: nat)
      requires v == CurrentView() && v.Valid() && c.bytes == 4 <= lenLimit && cur + lenLimit <= |data|
               && HeadsSized(c, tb)
      requires ref2 == tb.head2[H2At(c, data, cur)] && ref3 == tb.head3[H3At(c, data, cur)]
      requires (v.InWindow(ref2) ==> v.Delta(ref2) <= cur) && (v.InWindow(ref3) ==> v.Delta(ref3) <= cur)
      ensures Candidates(found, maxLen) == HeadMatches(c, data, v, tb, lenLimit)
    {
      hide H2At, H3At, View.Delta, Lcp;
      var d2, d3 := v.Delta(ref2), v.Delta(ref3);
      maxLen := 0;
      found := [];
      if d2 < p.cyclicSize && data[cur - d2] == data[cur] {
        maxLen := 2;
        found := [Match(2, d2 - 1)];
      }
      if d2 != d3 && d3 < p.cyclicSize && data[cur - d3] == data[cur] {
        maxLen := 3;
        found := found + [Match(3, d3 - 1)];
        d2 := d3;
      }
      if found != [] {
        maxLen := Compare(data, cur - d2, cur, maxLen, lenLimit);
        found := found[|found| - 1 := Match(maxLen, found[|found| - 1].dist)];
      }
    }

    /** The search MatchFinder_CreateVTable selects. What is reported depends on the input alone and is
        true; it is complete when the current bucket leaves room for it. The state is that of Skip(1). */
    method GetMatches() returns (found: seq<Match>)
      requires Valid() && cur < |data|
      modifies this, head2, head3, heads, son
      ensures Valid() && cur == old(cur) + 1
      ensures State() == if btMode then Next(p, c, data, old(State())) else NextHc(p, c, data, old(State()))
      ensures found == if btMode then IndexReport(p, c, data, old(cur)) else IndexReportHc(p, c, data, old(cur))
      ensures TrueReport(p, c, data, old(cur), found)
      ensures (if btMode then AllRoomy(p, c, data, old(cur)) else FewMates(p, c, data, old(cur)))
              ==> CompleteReport(p, c, data, old(cur), found)
    {
      hide FinderInv, HcInv, Next, NextHc, Report, ReportHc, IndexReport, IndexReportHc, IndexTrees, TrueReport,
           CompleteReport,
           AllRoomy, FewMates;
      if btMode {
        Bounds();
        ReportIsTrue(p, c, data, State(), trees);
        ReportFromTrees(p, c, data, State(), trees);
        if AllRoomy(p, c, data, cur) {
          ReportIsComplete(p, c, data, State(), trees);
        }
        if c.bytes == 2 {
          found := Bt2GetMatches();
        } else if c.bytes == 3 {
          found := Bt3GetMatches();
        } else {
          found := Bt4GetMatches();
        }
      } else {
        BoundsHc();
        ReportHcIsIndex(p, c, data, State(), chains);
        ReportHcIsTrue(p, c, data, State(), chains);
        found := Hc4GetMatches();
      }
    }

    // ---- Hash chains ----

    lemma BoundsHc()
      requires Valid() && !btMode
      ensures MatchingHc(p, c, data, State()) && CurrentView() == ViewOf(p, State().window)
      ensures cur + lenLimit <= |data| && Apart() && (cur < |data| <==> CurrentWindow().Available() > 0)
    {
    }

    method MoveOnHc(ghost before: Finder)
      requires Apart() && c.Ok() && c.cutValue < 0x1_0000_0000 && !btMode
      requires HcInv(p, c, data, before, chains) && before.window.Available() > 0
      requires CurrentWindow() == before.window && CurrentTables() == EnteredHc(p, c, data, before)
      modifies this, head2, head3, heads, son
      ensures Valid() && State() == NextHc(p, c, data, before) && cur == before.window.cur + 1
    {
      hide LzWindow.MovePos, RenumberTables, EnteredHc, IndexedHc, Inv, ChainsNext;
      MovePos();
      chains := ChainsNext(p, c, data, before, chains);
      NextHcKeepsInv(p, c, data, before, old(chains));
    }

    /** The chain of the current bucket. */
    ghost function CurrentChain(): seq<nat>
      requires c.Ok()
      reads this
    {
      if |chains| == c.buckets then chains[c.MainHash(data, cur)] else []
    }

    lemma BucketChain()
      requires Valid() && !btMode && lenLimit >= 4
      ensures c.Ok() && |heads[..]| == c.buckets && CurrentView().Valid() && son.Length == p.cyclicSize
      ensures var chain := CurrentChain();
              RepChain(son[..], heads[c.MainHash(data, cur)], chain, CurrentView()) && Descending(chain, cur)
      ensures var v := CurrentView();
              && (v.InWindow(head2[H2At(c, data, cur)]) ==> v.Delta(head2[H2At(c, data, cur)]) <= cur)
              && (v.InWindow(head3[H3At(c, data, cur)]) ==> v.Delta(head3[H3At(c, data, cur)]) <= cur)
    {
      hide RepChain, Descending, Elements, Config.MainHash, Inv, H2, H3, View.Delta;
      var h, v := c.MainHash(data, cur), CurrentView();
      assert ChainOk(c, data, v, cur, h, heads[..][h], son[..], chains[h]);
      var slot2, slot3 := H2At(c, data, cur), H3At(c, data, cur);
      assert NewestAt(data, v, cur, Hash2(c, data), slot2, head2[..][slot2]);
      assert NewestAt(data, v, cur, Hash3(c, data), slot3, head3[..][slot3]);
    }

    /** Hc4_MatchFinder_GetMatches */
    method Hc4GetMatches() returns (found: seq<Match>)
      requires Valid() && !btMode && cur < |data|
      modifies this, head2, head3, heads, son
      ensures Valid() && State() == NextHc(p, c, data, old(State())) && cur == old(cur) + 1
      ensures found == ReportHc(p, c, data, old(State()))
    {
      hide HcInv, NextHc, EnterHeads, FastChain, H2At, H3At, Config.MainHash, RepChain, Descending, View.Delta,
           HeadMatches;
      ghost var before := State();
      BoundsHc();
      if lenLimit < 4 {
        MoveOnHc(before);
        return [];
      }
      BucketChain();
      var v := CurrentView();
      ghost var chain := CurrentChain();
      GetIsSkipHc(c, c.cutValue, data, v, before.tables, lenLimit);
      var ref2, ref3, curMatch := Enter();
      var maxLen;
      found, maxLen := TryHeads(v, ref2, ref3, before.tables);
      HeadMatchesBounded(c, data, v, before.tables, lenLimit);
      if found != [] && maxLen == lenLimit {
        Store(son, cyclicPos, curMatch);
        MoveOnHc(before);
        return;
      }
      if maxLen < 3 {
        maxLen := 3;
      }
      var tail := HcGetMatchesSpec(data, v, son, curMatch, lenLimit, c.cutValue, maxLen, chain);
      found := found + tail;
      MoveOnHc(before);
    }

    /** Hc4_MatchFinder_Skip, for one position. */
    method Hc4SkipOne()
      requires Valid() && !btMode && cur < |data|
      modifies this, head2, head3, heads, son
      ensures Valid() && State() == NextHc(p, c, data, old(State())) && cur == old(cur) + 1
    {
      hide HcInv, NextHc, EnterHeads, H2At, H3At, Config.MainHash, RepChain, Descending, View.Delta;
      ghost var before := State();
      BoundsHc();
      if lenLimit < 4 {
        MoveOnHc(before);
        return;
      }
      BucketChain();
      var ref2, ref3, curMatch := Enter();
      Store(son, cyclicPos, curMatch);
      MoveOnHc(before);
    }

    /** Hc4_MatchFinder_Skip */
    method Hc4Skip(num: nat)
      requires Valid() && !btMode && 1 <= num && cur + num <= |data|
      modifies this, head2, head3, heads, son
      ensures Valid() && State() == SkipAllHc(p, c, data, old(State()), num)
    {
      hide HcInv, NextHc;
      var left := num;
      ghost var goal := SkipAllHc(p, c, data, State(), num);
      while true
        invariant Valid() && 1 <= left && cur + left <= |data|
        invariant goal == SkipAllHc(p, c, data, State(), left)
        decreases left
      {
        BoundsHc();
        Hc4SkipOne();
        left := left - 1;
        if left == 0 {
          return;
        }
      }
    }

    // ---- Skipping with trees ----

    /** The Skip MatchFinder_CreateVTable selects: `num` positions without reporting. */
    method Skip(num: nat)
      requires Valid() && 1 <= num && cur + num <= |data|
      modifies this, head2, head3, heads, son
      ensures Valid()
      ensures State() == if btMode then SkipAll(p, c, data, old(State()), num)
              else SkipAllHc(p, c, data, old(State()), num)
    {
      hide FinderInv, HcInv, SkipAll, SkipAllHc;
      if btMode {
        BtSkip(num);
      } else {
        Hc4Skip(num);
      }
    }

    /** Bt2/Bt3/Bt4_MatchFinder_Skip */
    method BtSkip(num: nat)
      requires Valid() && btMode && 1 <= num && cur + num <= |data|
      modifies this, head2, head3, heads, son
      ensures Valid() && State() == SkipAll(p, c, data, old(State()), num)
    {
      hide FinderInv, Next;
      var left := num;
      ghost var goal := SkipAll(p, c, data, State(), num);
      while true
        invariant Valid() && 1 <= left && cur + left <= |data|
        invariant goal == SkipAll(p, c, data, State(), left)
        decreases left
      {
        Bounds();
        SkipOne();
        left := left - 1;
        if left == 0 {
          return;
        }
      }
    }

    /** One pass through the loop of Skip. */
    method SkipOne()
      requires Valid() && btMode && cur < |data|
      modifies this, head2, head3, heads, son
      ensures Valid() && State() == Next(p, c, data, old(State())) && cur == old(cur) + 1
    {
      hide FinderInv, Next, EnterHeads, SkipLoop, H2At, H3At, Config.MainHash, Rep, OlderThan, Distinct;
      ghost var before := State();
      Bounds();
      if lenLimit < c.bytes {
        MoveOn(before);
        return;
      }
      BucketTree();
      var v := CurrentView();
      ghost var t := CurrentTree();
      var ref2, ref3, curMatch := Enter();
      SkipMatchesSpec(data, v, son, curMatch, lenLimit, c.cutValue, t);
      MoveOn(before);
    }
  }

  lemma RenumberByZero(w: Window, tb: Tables)
    ensures RenumberTables(0, tb) == tb
    ensures ReduceOffsets(0, w) == w
  {
    RenumberZero(tb.head2);
    RenumberZero(tb.head3);
    RenumberZero(tb.heads);
    RenumberZero(tb.son);
  }

  lemma RenumberZero(refs: seq<UInt32>)
    ensures RenumberAll(0, refs) == refs
  {
  }
}
