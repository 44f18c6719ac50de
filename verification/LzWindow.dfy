/** The position bookkeeping of the match finder with direct input: limits, renumbering, moving on. */
module LzWindow {
  import opened Words
  import opened LzTree
  import opened LzSon

  const MAX_VAL_FOR_NORMALIZE: UInt32 := 0xFFFF_FFFF

  /** What MatchFinder_Create fixes, and the length of the input. `cyclicSize` is historySize + 1;
      keepSizeAfter is matchMaxLen plus the caller's extra lookahead. */
  datatype Params = Params(cyclicSize: nat, matchMaxLen: nat, keepSizeAfter: nat, size: nat) {
    predicate Ok() {
      1 <= cyclicSize <= 0xE000_0001 && matchMaxLen <= keepSizeAfter < 0xFFFF_FFFF
    }
  }

  /** The fields of CMatchFinder that move. `cur` is the index of `buffer` in the input. */
  datatype Window = Window(pos: UInt32, posLimit: UInt32, streamPos: UInt32, lenLimit: nat,
                           cyclicPos: nat, cur: nat, rem: nat, ended: bool) {
    /** MatchFinder_GetNumAvailableBytes */
    function Available(): UInt32 {
      (streamPos - pos) % 0x1_0000_0000
    }
  }

  /** MatchFinder_ReadBlock, for direct input. */
  function ReadBlock(w: Window): Window {
    if w.ended then w else
    var size := Min(0xFFFF_FFFF - w.Available(), w.rem);
    w.(rem := w.rem - size, streamPos := (w.streamPos + size) % 0x1_0000_0000, ended := w.rem - size == 0)
  }

  /** MatchFinder_SetLimits */
  function SetLimits(p: Params, w: Window): Window
    requires w.cyclicPos <= p.cyclicSize
  {
    var toMax := MAX_VAL_FOR_NORMALIZE - w.pos;
    var limit := Min(toMax, p.cyclicSize - w.cyclicPos);
    var available := w.Available();
    var limit2 := if available <= p.keepSizeAfter then (if available > 0 then 1 else 0)
      else available - p.keepSizeAfter;
    w.(lenLimit := Min(available, p.matchMaxLen), posLimit := (w.pos + Min(limit, limit2)) % 0x1_0000_0000)
  }

  /** MatchFinder_GetSubValue: a multiple of 2^10. */
  function SubValue(p: Params, pos: UInt32): UInt32 {
    var x := (pos - p.cyclicSize) % 0x1_0000_0000;
    x - x % 0x400
  }

  /** One entry of MatchFinder_Normalize3. */
  function Renumber(sub: UInt32, ref: UInt32): UInt32 {
    if ref <= sub then EMPTY else ref - sub
  }

  function RenumberAll(sub: UInt32, refs: seq<UInt32>): (r: seq<UInt32>)
    ensures |r| == |refs| && forall i :: 0 <= i < |refs| ==> r[i] == Renumber(sub, refs[i])
  {
    seq(|refs|, i requires 0 <= i < |refs| => Renumber(sub, refs[i]))
  }

  /** MatchFinder_ReduceOffsets */
  function ReduceOffsets(sub: UInt32, w: Window): Window {
    w.(posLimit := (w.posLimit - sub) % 0x1_0000_0000, pos := (w.pos - sub) % 0x1_0000_0000,
       streamPos := (w.streamPos - sub) % 0x1_0000_0000)
  }

  /** The amount MatchFinder_CheckLimits renumbers by, zero when it does not. */
  function Shift(p: Params, w: Window): UInt32 {
    if w.pos == MAX_VAL_FOR_NORMALIZE then SubValue(p, w.pos) else 0
  }

  /** MatchFinder_CheckLimits, on the moving fields. */
  function CheckLimits(p: Params, w: Window): Window
    requires w.cyclicPos <= p.cyclicSize
  {
    var w1 := ReduceOffsets(Shift(p, w), w);
    var w2 := if !w1.ended && p.keepSizeAfter == w1.Available() then ReadBlock(w1) else w1;
    var w3 := if w2.cyclicPos == p.cyclicSize then w2.(cyclicPos := 0) else w2;
    SetLimits(p, w3)
  }

  /** The counting part of MOVE_POS. */
  function Advance(w: Window): Window {
    w.(cyclicPos := w.cyclicPos + 1, cur := w.cur + 1, pos := (w.pos + 1) % 0x1_0000_0000)
  }

  /** MOVE_POS */
  function MovePos(p: Params, w: Window): Window
    requires w.cyclicPos < p.cyclicSize
  {
    var w1 := Advance(w);
    if w1.pos == w1.posLimit then CheckLimits(p, w1) else w1
  }

  /** The renumbering MOVE_POS performs on every reference. */
  function MoveShift(p: Params, w: Window): UInt32 {
    var w1 := Advance(w);
    if w1.pos == w1.posLimit then Shift(p, w1) else 0
  }

  /** MatchFinder_Init_3 after the hash tables are cleared. */
  function Init(p: Params): Window
    requires p.Ok()
  {
    SetLimits(p, ReadBlock(Window(p.cyclicSize, 0, p.cyclicSize, 0, 0, 0, p.size, false)))
  }

  /** What holds at every position a caller can see. */
  ghost predicate Inv(p: Params, w: Window) {
    && p.Ok()
    && p.cyclicSize <= w.pos < MAX_VAL_FOR_NORMALIZE && w.cyclicPos < p.cyclicSize
    && w.cur + w.Available() + w.rem == p.size
    && (w.ended <==> w.rem == 0)
    && w.lenLimit == Min(p.matchMaxLen, p.size - w.cur)
    && (w.Available() <= p.keepSizeAfter ==> w.ended)
    && Limited(p, w)
  }

  /** The next check comes before the input window, the cyclic array or the numbers run out. */
  ghost predicate Limited(p: Params, w: Window) {
    var steps := w.posLimit - w.pos;
    && (w.Available() > 0 ==> 1 <= steps) && 0 <= steps <= p.cyclicSize - w.cyclicPos
    && (w.Available() > p.keepSizeAfter ==> steps <= w.Available() - p.keepSizeAfter)
    && (w.Available() <= p.keepSizeAfter ==> steps <= 1)
  }

  /** The invariant without the parts SetLimits establishes. */
  ghost predicate Unlimited(p: Params, w: Window) {
    && p.Ok()
    && p.cyclicSize <= w.pos < MAX_VAL_FOR_NORMALIZE && w.cyclicPos < p.cyclicSize
    && w.cur + w.Available() + w.rem == p.size
    && (w.ended <==> w.rem == 0)
    && (w.Available() <= p.keepSizeAfter ==> w.ended)
  }

  lemma SetLimitsLimits(p: Params, w: Window)
    requires Unlimited(p, w)
    ensures Inv(p, SetLimits(p, w))
  {
  }

  lemma ReadBlockReads(p: Params, w: Window)
    requires p.Ok() && w.cur + w.Available() + w.rem == p.size && !w.ended
    ensures var r := ReadBlock(w);
            && r.cur + r.Available() + r.rem == p.size && (r.ended <==> r.rem == 0)
            && (r.Available() <= p.keepSizeAfter ==> r.ended)
            && r == w.(rem := r.rem, streamPos := r.streamPos, ended := r.ended)
  {
  }

  /** After MatchFinder_Init the invariant holds. */
  lemma InitInv(p: Params)
    requires p.Ok()
    ensures Inv(p, Init(p))
  {
    var w := Window(p.cyclicSize, 0, p.cyclicSize, 0, 0, 0, p.size, false);
    ReadBlockReads(p, w);
    SetLimitsLimits(p, ReadBlock(w));
  }

  lemma SubValueBounds(p: Params)
    requires p.Ok()
    ensures var sub := SubValue(p, MAX_VAL_FOR_NORMALIZE);
            0 < sub <= MAX_VAL_FOR_NORMALIZE - p.cyclicSize < sub + 0x400
  {
  }

  /** Renumbering keeps the number of available bytes and leaves room above. */
  lemma ReduceKeeps(p: Params, w: Window)
    requires p.Ok() && p.cyclicSize <= w.pos
    ensures var w1 := ReduceOffsets(Shift(p, w), w);
            && p.cyclicSize <= w1.pos < MAX_VAL_FOR_NORMALIZE
            && w1.pos == w.pos - Shift(p, w)
            && w1.Available() == w.Available()
  {
    SubValueBounds(p);
  }

  /** What holds when MOVE_POS has just counted up to the limit. */
  ghost predicate AtLimit(p: Params, w: Window) {
    && p.Ok()
    && p.cyclicSize <= w.pos && w.cyclicPos <= p.cyclicSize
    && w.cur + w.Available() + w.rem == p.size
    && (w.ended <==> w.rem == 0)
    && (w.Available() < p.keepSizeAfter ==> w.ended)
  }

  lemma CheckLimitsInv(p: Params, w: Window)
    requires AtLimit(p, w)
    ensures Inv(p, CheckLimits(p, w)) && CheckLimits(p, w).cur == w.cur
  {
    hide SetLimits, ReadBlock, ReduceOffsets, Shift, Inv;
    ReduceKeeps(p, w);
    var w1 := ReduceOffsets(Shift(p, w), w);
    ReduceOthers(Shift(p, w), w);
    if !w1.ended {
      ReadBlockReads(p, w1);
    }
    var w2 := if !w1.ended && p.keepSizeAfter == w1.Available() then ReadBlock(w1) else w1;
    var w3 := if w2.cyclicPos == p.cyclicSize then w2.(cyclicPos := 0) else w2;
    SetLimitsLimits(p, w3);
    SetLimitsOthers(p, w3);
  }

  lemma ReduceOthers(sub: UInt32, w: Window)
    ensures var w1 := ReduceOffsets(sub, w);
            w1 == w.(pos := w1.pos, posLimit := w1.posLimit, streamPos := w1.streamPos)
  {
  }

  lemma SetLimitsOthers(p: Params, w: Window)
    requires w.cyclicPos <= p.cyclicSize
    ensures var w1 := SetLimits(p, w);
            w1 == w.(lenLimit := w1.lenLimit, posLimit := w1.posLimit)
  {
  }

  /** MOVE_POS keeps the invariant while input remains, so every property of `Inv` holds at every
      position of every run. */
  lemma MovePosInv(p: Params, w: Window)
    requires Inv(p, w) && w.Available() > 0
    ensures Inv(p, MovePos(p, w)) && MovePos(p, w).cur == w.cur + 1
  {
    hide CheckLimits;
    var w1 := Advance(w);
    assert w1.Available() == w.Available() - 1;
    if w1.pos == w1.posLimit {
      CheckLimitsInv(p, w1);
    }
  }

  /** At every position reached, the search may look lenLimit bytes ahead, its slot exists, and the
      position has not reached the last number. */
  lemma LookaheadThere(p: Params, w: Window)
    requires Inv(p, w)
    ensures w.lenLimit <= w.Available() && w.cur + w.Available() <= p.size
    ensures w.cyclicPos < p.cyclicSize <= w.pos < MAX_VAL_FOR_NORMALIZE
    ensures w.Available() > 0 <==> w.cur < p.size
  {
  }

  // ---- What a step does to the fields ----

  /** A block read makes as much input available as a 32-bit count can express. */
  lemma BlockRead(w: Window)
    requires !w.ended
    ensures var r := ReadBlock(w);
            && r.Available() == Min(0xFFFF_FFFF, w.Available() + w.rem)
            && r.Available() + r.rem == w.Available() + w.rem && (r.ended <==> r.rem == 0)
            && r.pos == w.pos && r.cur == w.cur
  {
  }

  /** posLimit is the last position before one of four things happens: the numbers run out, the cyclic
      array ends, the lookahead is used up or, when it is, the next step. */
  lemma LimitIsGreatest(p: Params, w: Window, n: nat)
    requires Unlimited(p, w)
    ensures w.pos <= SetLimits(p, w).posLimit
    ensures w.pos + n <= SetLimits(p, w).posLimit <==>
            && w.pos + n <= 0xFFFF_FFFF && w.cyclicPos + n <= p.cyclicSize
            && (if w.Available() > p.keepSizeAfter then n + p.keepSizeAfter <= w.Available()
                else n <= 1 && n <= w.Available())
    ensures SetLimits(p, w).lenLimit == Min(w.Available(), p.matchMaxLen)
  {
  }

  /** One position on: the cyclic position wraps around at the end of the array, and the number grows by
      one until it reaches 0xFFFFFFFF, when it drops by the greatest multiple of 2^10 that leaves it at
      cyclicSize or more. */
  lemma MoveExactly(p: Params, w: Window)
    requires Inv(p, w) && w.Available() > 0
    ensures var next, sub := MovePos(p, w), MoveShift(p, w);
            && next.cur == w.cur + 1
            && next.cyclicPos == (if w.cyclicPos + 1 == p.cyclicSize then 0 else w.cyclicPos + 1)
            && next.pos == w.pos + 1 - sub
            && (if w.pos + 1 < 0xFFFF_FFFF then sub == 0
                else sub % 0x400 == 0 && p.cyclicSize <= next.pos < p.cyclicSize + 0x400)
  {
    hide SetLimits, ReadBlock, Inv;
    MovedWithin(p, w);
    var w1 := Advance(w);
    if w1.pos == w1.posLimit {
      ReduceKeeps(p, w1);
      SubValueBounds(p);
      var w2 := ReduceOffsets(Shift(p, w1), w1);
      ReadKeeps(w2);
      var w3 := if !w2.ended && p.keepSizeAfter == w2.Available() then ReadBlock(w2) else w2;
      SetLimitsOthers(p, w3.(cyclicPos := 0));
      SetLimitsOthers(p, w3);
    }
  }

  lemma MovedWithin(p: Params, w: Window)
    requires Inv(p, w) && w.Available() > 0
    ensures var w1 := Advance(w);
            && p.Ok() && p.cyclicSize <= w1.pos == w.pos + 1 <= 0xFFFF_FFFF && w1.cyclicPos <= p.cyclicSize
            && (w1.pos != w1.posLimit ==> w1.pos < 0xFFFF_FFFF && w1.cyclicPos < p.cyclicSize)
  {
  }

  lemma ReadKeeps(w: Window)
    ensures var r := ReadBlock(w);
            r == w.(rem := r.rem, streamPos := r.streamPos, ended := r.ended)
  {
  }

  // ---- Renumbering keeps every distance ----

  function ViewOf(p: Params, w: Window): View {
    View(p.cyclicSize, w.cyclicPos, w.pos, w.cur)
  }

  /** An in-window reference keeps its distance, any other stays out of the window. */
  lemma RenumberKeepsDelta(v: View, sub: UInt32, ref: UInt32)
    requires v.Valid() && sub <= v.pos - v.cyclicSize
    ensures var v' := v.(pos := v.pos - sub);
            && (v'.InWindow(Renumber(sub, ref)) <==> v.InWindow(ref))
            && (ref <= v.pos ==> Renumber(sub, ref) <= v'.pos)
            && (v.InWindow(ref) ==> v'.Delta(Renumber(sub, ref)) == v.Delta(ref))
  {
  }

  lemma SlotsKeep(v: View, sub: UInt32)
    requires v.Valid() && sub <= v.pos - v.cyclicSize
    ensures var v' := v.(pos := v.pos - sub);
            forall d :: 0 <= d < v.cyclicSize ==> v'.Slot(d) == v.Slot(d)
  {
  }

  /** After renumbering every reference represents the same tree as before. */
  lemma {:induction false} RenumberKeepsRep(v: View, sub: UInt32, son: seq<UInt32>, ref: UInt32, t: Tree)
    requires v.Valid() && |son| == 2 * v.cyclicSize && sub <= v.pos - v.cyclicSize
    requires Rep(son, ref, t, v)
    ensures Rep(RenumberAll(sub, son), Renumber(sub, ref), t, v.(pos := v.pos - sub))
    decreases t
  {
    hide View.Delta, View.Slot, Renumber;
    var v' := v.(pos := v.pos - sub);
    RenumberKeepsDelta(v, sub, ref);
    SlotsKeep(v, sub);
    if t.Node? {
      RenumberKeepsRep(v, sub, son, son[v.Pair(t.at)], t.left);
      RenumberKeepsRep(v, sub, son, son[v.Pair(t.at) + 1], t.right);
    }
  }

  // ---- Moving on ----

  /** The tree without the strings before `lo`. */
  function Prune(t: Tree, lo: int): Tree {
    if t.Leaf? || t.at < lo then Leaf else Node(t.at, Prune(t.left, lo), Prune(t.right, lo))
  }

  /** The same window one position further on. */
  function NextView(v: View): View
    requires v.pos < MAX_VAL_FOR_NORMALIZE
  {
    View(v.cyclicSize, if v.cyclicPos + 1 == v.cyclicSize then 0 else v.cyclicPos + 1, v.pos + 1, v.cur + 1)
  }

  lemma NextViewKeeps(v: View)
    requires v.Valid() && v.pos < MAX_VAL_FOR_NORMALIZE
    ensures NextView(v).Valid()
    ensures forall x :: v.cur + 1 - v.cyclicSize < x <= v.cur ==> NextView(v).Pair(x) == v.Pair(x)
  {
  }

  lemma NextDelta(v: View, ref: UInt32)
    requires v.Valid() && v.pos < MAX_VAL_FOR_NORMALIZE
    ensures v.InWindow(ref) ==> NextView(v).Delta(ref) == v.Delta(ref) + 1
    ensures !v.InWindow(ref) && ref <= v.pos ==> !NextView(v).InWindow(ref)
    ensures v.InWindow(ref) ==> ref <= v.pos
  {
  }

  /** Moving on drops exactly the strings that leave the window. */
  lemma {:induction false} NextRep(v: View, son: seq<UInt32>, ref: UInt32, t: Tree, b: int)
    requires v.Valid() && v.pos < MAX_VAL_FOR_NORMALIZE && |son| == 2 * v.cyclicSize
    requires Rep(son, ref, t, v) && OlderThan(t, b)
    ensures Rep(son, ref, Prune(t, v.cur + 2 - v.cyclicSize), NextView(v))
    decreases t
  {
    hide View.Delta, View.Pair, NextView;
    NextViewKeeps(v);
    NextDelta(v, ref);
    NextFields(v);
    if t.Node? {
      NextRep(v, son, son[v.Pair(t.at)], t.left, t.at);
      NextRep(v, son, son[v.Pair(t.at) + 1], t.right, t.at);
    }
  }

  lemma NextFields(v: View)
    requires v.pos < MAX_VAL_FOR_NORMALIZE
    ensures NextView(v).cur == v.cur + 1 && NextView(v).cyclicSize == v.cyclicSize && NextView(v).pos == v.pos + 1
  {
  }
}
