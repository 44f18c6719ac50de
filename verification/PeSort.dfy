/** The insertion sort of the section table. */
module PeSort {
  import opened Words
  import opened PeImage

  predicate Sorted(t: seq<Section>) {
    forall i, j :: 0 <= i < j < |t| ==> t[i].pointer <= t[j].pointer
  }

  /** The elements with the given pointer, in order. */
  function At(t: seq<Section>, pointer: UInt32): (r: seq<Section>) {
    if t == [] then []
    else At(t[..|t| - 1], pointer) + (if t[|t| - 1].pointer == pointer then [t[|t| - 1]] else [])
  }

  /** The elements with raw data, in order: the only ones that are hashed. */
  function NonEmpty(t: seq<Section>): (r: seq<Section>) {
    if t == [] then []
    else NonEmpty(t[..|t| - 1]) + (if t[|t| - 1].size > 0 then [t[|t| - 1]] else [])
  }

  /** One round of the sort: larger elements move up and s takes the free place. */
  function Insert(t: seq<Section>, s: Section): (r: seq<Section>)
    ensures |r| == |t| + 1
  {
    if t != [] && s.pointer < t[|t| - 1].pointer then Insert(t[..|t| - 1], s) + [t[|t| - 1]]
    else t + [s]
  }

  function Sort(t: seq<Section>): (r: seq<Section>)
    ensures |r| == |t|
  {
    if t == [] then [] else Insert(Sort(t[..|t| - 1]), t[|t| - 1])
  }

  lemma {:induction false} InsertSorts(t: seq<Section>, s: Section)
    requires Sorted(t)
    ensures Sorted(Insert(t, s)) && multiset(Insert(t, s)) == multiset(t) + multiset{s}
  {
    hide Sorted, Insert;
    if t != [] && s.pointer < t[|t| - 1].pointer {
      var t0, last := t[..|t| - 1], t[|t| - 1];
      InsertUnfolds(t, s);
      SortedInit(t);
      InsertSorts(t0, s);
      SortedAppend(Insert(t0, s), last, multiset(t0) + multiset{s});
      assert multiset(Insert(t0, s) + [last]) == multiset(Insert(t0, s)) + multiset{last};
    } else {
      if t != [] {
        SortedInit(t);
      }
      InsertEnds(t, s);
      SortedAppend(t, s, multiset(t));
    }
  }

  lemma SortedInit(t: seq<Section>)
    requires Sorted(t) && t != []
    ensures Sorted(t[..|t| - 1])
    ensures multiset(t) == multiset(t[..|t| - 1]) + multiset{t[|t| - 1]}
    ensures forall e :: e in multiset(t[..|t| - 1]) ==> e.pointer <= t[|t| - 1].pointer
  {
    assert t == t[..|t| - 1] + [t[|t| - 1]];
  }

  lemma SortedAppend(t: seq<Section>, last: Section, elements: multiset<Section>)
    requires Sorted(t) && multiset(t) == elements
    requires forall e :: e in elements ==> e.pointer <= last.pointer
    ensures Sorted(t + [last])
  {
    forall i | 0 <= i < |t| ensures t[i].pointer <= last.pointer {
      assert t[i] in multiset(t);
    }
  }

  lemma {:induction false} InsertIsStable(t: seq<Section>, s: Section, pointer: UInt32)
    requires Sorted(t)
    ensures At(Insert(t, s), pointer) == At(t, pointer) + (if s.pointer == pointer then [s] else [])
  {
    if t != [] && s.pointer < t[|t| - 1].pointer {
      var t0, last := t[..|t| - 1], t[|t| - 1];
      InsertIsStable(t0, s, pointer);
      assert Insert(t, s)[..|t|] == Insert(t0, s);
    } else {
      assert (t + [s])[..|t|] == t;
    }
  }

  /** The sorted table is a stable, ascending permutation of the section table. */
  lemma {:induction false} SortSorts(t: seq<Section>)
    ensures Sorted(Sort(t)) && multiset(Sort(t)) == multiset(t)
    ensures forall pointer: UInt32 :: At(Sort(t), pointer) == At(t, pointer)
  {
    if t != [] {
      var t0, last := t[..|t| - 1], t[|t| - 1];
      assert t == t0 + [last];
      SortSorts(t0);
      InsertSorts(Sort(t0), last);
      forall pointer: UInt32 ensures At(Sort(t), pointer) == At(t, pointer) {
        InsertIsStable(Sort(t0), last, pointer);
      }
    }
  }

  lemma {:induction false} AtHas(t: seq<Section>, pointer: UInt32)
    ensures At(t, pointer) != [] <==> exists s :: s in t && s.pointer == pointer
    ensures t != [] && t[|t| - 1].pointer == pointer ==> At(t, pointer) != []
                                                         && At(t, pointer)[|At(t, pointer)| - 1] == t[|t| - 1]
  {
    if t != [] {
      AtHas(t[..|t| - 1], pointer);
      assert t == t[..|t| - 1] + [t[|t| - 1]];
    }
  }

  /** There is only one stable ascending arrangement. */
  lemma {:induction false} StableOrderUnique(a: seq<Section>, b: seq<Section>)
    requires Sorted(a) && Sorted(b)
    requires forall pointer: UInt32 :: At(a, pointer) == At(b, pointer)
    ensures a == b
  {
    if a == [] && b == [] {
    } else if a == [] {
      AtHas(b, b[|b| - 1].pointer);
    } else if b == [] {
      AtHas(a, a[|a| - 1].pointer);
    } else {
      var x, y := a[|a| - 1], b[|b| - 1];
      AtHas(a, x.pointer);
      AtHas(b, x.pointer);
      AtHas(a, y.pointer);
      AtHas(b, y.pointer);
      assert x.pointer == y.pointer;
      assert x == y;
      var a0, b0 := a[..|a| - 1], b[..|b| - 1];
      forall pointer: UInt32 ensures At(a0, pointer) == At(b0, pointer) {
        var tail := if x.pointer == pointer then [x] else [];
        assert At(a, pointer) == At(a0, pointer) + tail && At(b, pointer) == At(b0, pointer) + tail;
        CancelTail(At(a0, pointer), At(b0, pointer), tail);
      }
      StableOrderUnique(a0, b0);
      assert a == a0 + [x] == b0 + [y] == b;
    }
  }

  lemma CancelTail(a: seq<Section>, b: seq<Section>, tail: seq<Section>)
    requires a + tail == b + tail
    ensures a == b
  {
    assert |a| == |b|;
    assert a == (a + tail)[..|a|] && b == (b + tail)[..|b|];
  }

  lemma {:induction false} NonEmptyIn(t: seq<Section>)
    ensures Sorted(t) ==> Sorted(NonEmpty(t))
    ensures forall s :: s in NonEmpty(t) <==> s in t && s.size > 0
  {
    if t != [] {
      NonEmptyIn(t[..|t| - 1]);
      assert t == t[..|t| - 1] + [t[|t| - 1]];
    }
  }

  lemma {:induction false} NonEmptyAt(t: seq<Section>, pointer: UInt32)
    ensures NonEmpty(At(t, pointer)) == At(NonEmpty(t), pointer)
  {
    if t != [] {
      var t0, last := t[..|t| - 1], t[|t| - 1];
      NonEmptyAt(t0, pointer);
      SplitLast(At(t0, pointer), last);
      SplitLast(NonEmpty(t0), last);
      assert forall u: seq<Section> :: u + [] == u;
    }
  }

  lemma SplitLast(t: seq<Section>, s: Section)
    ensures (t + [s])[..|t|] == t && (t + [s])[|t|] == s
  {
  }

  /** Sorting the whole table and skipping empty sections while hashing visits what the published
      procedure visits, which drops the empty sections first. */
  lemma SkippingCommutes(t: seq<Section>)
    ensures NonEmpty(Sort(t)) == Sort(NonEmpty(t))
  {
    SortSorts(t);
    SortSorts(NonEmpty(t));
    NonEmptyIn(Sort(t));
    forall pointer: UInt32 ensures At(NonEmpty(Sort(t)), pointer) == At(Sort(NonEmpty(t)), pointer) {
      NonEmptyAt(Sort(t), pointer);
      NonEmptyAt(t, pointer);
    }
    StableOrderUnique(NonEmpty(Sort(t)), Sort(NonEmpty(t)));
  }

  // ---- The loop, on the array of the source ----

  lemma InsertUnfolds(t: seq<Section>, s: Section)
    requires t != [] && s.pointer < t[|t| - 1].pointer
    ensures Insert(t, s) == Insert(t[..|t| - 1], s) + [t[|t| - 1]]
  {
  }

  lemma InsertEnds(t: seq<Section>, s: Section)
    requires t != [] ==> t[|t| - 1].pointer <= s.pointer
    ensures Insert(t, s) == t + [s]
  {
  }

  lemma {:induction false} InsertShifts(t: seq<Section>, s: Section, pos: nat)
    requires pos <= |t|
    requires forall j :: pos <= j < |t| ==> s.pointer < t[j].pointer
    requires pos > 0 ==> t[pos - 1].pointer <= s.pointer
    ensures Insert(t, s) == t[..pos] + [s] + t[pos..]
  {
    hide Insert;
    if pos < |t| {
      var t0, last := t[..|t| - 1], t[|t| - 1];
      InsertUnfolds(t, s);
      InsertShifts(t0, s, pos);
      assert t0[..pos] == t[..pos];
      assert t[pos..] == t0[pos..] + [last];
      Assoc(t[..pos] + [s], t0[pos..], [last]);
    } else {
      InsertEnds(t, s);
      assert t[..pos] == t;
      assert t[pos..] == [];
    }
  }

  lemma Shifted(now: seq<Section>, was: seq<Section>, s: Section, pos: nat)
    requires pos <= |was| && |now| == |was| + 1
    requires now[..pos] == was[..pos] && now[pos] == s
    requires forall j :: pos <= j < |was| ==> now[j + 1] == was[j] && s.pointer < was[j].pointer
    requires pos > 0 ==> was[pos - 1].pointer <= s.pointer
    ensures now == Insert(was, s)
  {
    InsertShifts(was, s, pos);
    assert now[pos + 1..] == was[pos..];
    assert now == now[..pos] + [now[pos]] + now[pos + 1..];
  }

  lemma SortStep(t: seq<Section>, n: nat)
    requires n < |t|
    ensures Sort(t[..n + 1]) == Insert(Sort(t[..n]), t[n])
  {
    assert t[..n + 1][..n] == t[..n];
  }

  lemma SortStart()
    ensures Sort([]) == []
  {
  }

  /** Moves larger entries up by one and puts the section in the place that becomes free. */
  method InsertInto(table: array<Section>, index: nat, section: Section)
    requires index < table.Length
    modifies table
    ensures table[..index + 1] == Insert(old(table[..index]), section)
  {
    hide Insert;
    ghost var was := table[..index];
    var pos := index;
    while pos > 0 && section.pointer < table[pos - 1].pointer
      invariant 0 <= pos <= index
      invariant forall j :: 0 <= j < pos ==> table[j] == was[j]
      invariant forall j :: pos <= j < index ==> table[j + 1] == was[j] && section.pointer < was[j].pointer
    {
      table[pos] := table[pos - 1];
      pos := pos - 1;
    }
    table[pos] := section;
    assert table[..index + 1][..pos] == was[..pos];
    Shifted(table[..index + 1], was, section, pos);
  }

  /** Fills the table from the image's section headers, keeping it sorted. */
  method InsertionSort(sections: seq<Section>) returns (table: array<Section>)
    ensures fresh(table) && table[..] == Sort(sections)
  {
    hide Sort, Insert;
    SortStart();
    table := new Section[|sections|](_ => Section(0, 0, 0));
    var index := 0;
    while index < |sections|
      invariant 0 <= index <= |sections| == table.Length
      invariant table[..index] == Sort(sections[..index])
    {
      InsertInto(table, index, sections[index]);
      SortStep(sections, index);
      index := index + 1;
    }
    assert sections[..index] == sections;
  }
}
