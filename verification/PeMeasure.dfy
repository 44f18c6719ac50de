/** The byte ranges of a PE image that are fed to the digest, and what the digest therefore covers. */
module PeMeasure {
  import opened Words
  import opened PeImage
  import opened PeSort

  /** `len` bytes of the image from `start`. */
  datatype Range = Range(start: nat, len: UInt64)

  /** Subtraction of UINTN values. */
  function Minus64(a: nat, b: nat): UInt64 {
    (a - b) % 0x1_0000_0000_0000_0000
  }

  /** Steps 4 to 9: the headers without the checksum and without the security directory entry. */
  function HeaderRanges(h: Header): seq<Range> {
    var checksum, entry := h.ChecksumAt(), h.EntryAt();
    if !h.HasEntry() then [Range(0, checksum), Range(checksum + 4, Minus64(h.sizeOfHeaders, checksum + 4))]
    else [Range(0, checksum), Range(checksum + 4, Minus64(entry, checksum + 4)),
          Range(entry + 8, Minus64(h.sizeOfHeaders, entry + 8))]
  }

  /** Steps 13 to 15: one range per section of the sorted table, empty sections skipped. */
  function SectionRanges(t: seq<Section>): (r: seq<Range>) {
    if t == [] then []
    else
      var s := t[|t| - 1];
      SectionRanges(t[..|t| - 1]) + (if s.size > 0 then [Range(s.pointer, s.size)] else [])
  }

  /** What steps 13 to 15 add to SumOfBytesHashed. */
  function SizeSum(t: seq<Section>): nat {
    if t == [] then 0 else SizeSum(t[..|t| - 1]) + t[|t| - 1].size
  }

  /** Step 16: data behind the summed bytes, without the certificates. */
  function Trailing(size: nat, cert: UInt32, sum: nat): (r: Option<seq<Range>>)
    requires size < 0x1_0000_0000_0000_0000
  {
    if size <= sum then Some([])
    else if size > cert + sum then Some([Range(sum, size - cert - sum)])
    else if size < cert + sum then None
    else Some([])
  }

  function Table(image: seq<Byte>, h: Header): (t: seq<Section>)
    requires h.TableAt() + 40 * h.sections <= |image|
    ensures |t| == h.sections
  {
    seq(h.sections, i requires 0 <= i < h.sections => SectionAt(image, h.TableAt() + 40 * i))
  }

  function Sum(image: seq<Byte>, h: Header): nat
    requires h.TableAt() + 40 * h.sections <= |image|
  {
    h.sizeOfHeaders + SizeSum(Sort(Table(image, h)))
  }

  /** All ranges in the order they are hashed, or None when the image is rejected. */
  function Ranges(image: seq<Byte>, h: Header): (r: Option<seq<Range>>)
    requires |image| < 0x1_0000_0000_0000_0000 && h.TableAt() + 40 * h.sections <= |image|
  {
    var tail := Trailing(|image|, h.Cert(), Sum(image, h));
    if tail.None? then None
    else Some(HeaderRanges(h) + SectionRanges(Sort(Table(image, h))) + tail.value)
  }

  predicate Legal(size: nat, r: Range) {
    r.start + r.len <= size
  }

  predicate AllLegal(size: nat, rs: seq<Range>) {
    forall i :: 0 <= i < |rs| ==> Legal(size, rs[i])
  }

  /** The bytes of a list of ranges, in order. */
  function Gather(image: seq<Byte>, rs: seq<Range>): (s: seq<Byte>)
    requires AllLegal(|image|, rs)
  {
    if rs == [] then []
    else
      var r := rs[|rs| - 1];
      assert Legal(|image|, r);
      Gather(image, rs[..|rs| - 1]) + image[r.start..r.start + r.len]
  }

  /** The byte stream fed to the digest, or None when the image is rejected. */
  function Measure(image: seq<Byte>): (stream: Option<seq<Byte>>)
    requires Addressable(image)
  {
    var h := GetPeHeader(image);
    if h.None? then None
    else
      AcceptedIsSound(image);
      var rs := Ranges(image, h.value);
      if rs.None? then None
      else
        RangesAreLegal(image, h.value);
        Some(Gather(image, rs.value))
  }

  // ---- Every range is legal ----

  /** Every section with data lies in the image, behind the headers. */
  predicate AllPlaced(image: seq<Byte>, h: Header, t: seq<Section>) {
    forall s :: s in t ==> Placed(image, h, s)
  }

  lemma SortedArePlaced(image: seq<Byte>, h: Header)
    requires Sound(image, h)
    ensures AllPlaced(image, h, Sort(Table(image, h)))
  {
    hide Sort, Placed;
    var t := Table(image, h);
    SortSorts(t);
    forall s | s in Sort(t) ensures Placed(image, h, s) {
      assert s in multiset(Sort(t));
      assert s in multiset(t);
      var i :| 0 <= i < |t| && t[i] == s;
      assert EntryPlaced(image, h, i);
    }
  }

  lemma {:induction false} SectionRangesLegal(image: seq<Byte>, h: Header, t: seq<Section>)
    requires AllPlaced(image, h, t)
    ensures AllLegal(|image|, SectionRanges(t))
  {
    if t != [] {
      assert t == t[..|t| - 1] + [t[|t| - 1]];
      SectionRangesLegal(image, h, t[..|t| - 1]);
      assert Placed(image, h, t[|t| - 1]);
    }
  }

  lemma HeaderRangesLegal(image: seq<Byte>, h: Header)
    requires |image| < 0x1_0000_0000_0000_0000 && Sound(image, h)
    ensures AllLegal(|image|, HeaderRanges(h))
  {
  }

  /** Every range hashed for an accepted image below 4 GiB lies in the image: no subtraction wraps. */
  lemma RangesAreLegal(image: seq<Byte>, h: Header)
    requires |image| < 0x1_0000_0000_0000_0000 && Sound(image, h) && Ranges(image, h).Some?
    ensures AllLegal(|image|, Ranges(image, h).value)
  {
    hide Sort, Table, HeaderRanges, SectionRanges, SizeSum;
    HeaderRangesLegal(image, h);
    SortedArePlaced(image, h);
    SectionRangesLegal(image, h, Sort(Table(image, h)));
  }

  // ---- Gathering ----

  lemma GatherEmpty(image: seq<Byte>)
    ensures Gather(image, []) == []
  {
  }

  lemma GatherPush(image: seq<Byte>, rs: seq<Range>, r: Range)
    requires AllLegal(|image|, rs) && Legal(|image|, r)
    ensures AllLegal(|image|, rs + [r])
    ensures Gather(image, rs + [r]) == Gather(image, rs) + image[r.start..r.start + r.len]
  {
    assert (rs + [r])[..|rs|] == rs;
  }

  lemma {:induction false} GatherJoin(image: seq<Byte>, a: seq<Range>, b: seq<Range>)
    requires AllLegal(|image|, a) && AllLegal(|image|, b)
    ensures AllLegal(|image|, a + b)
    ensures Gather(image, a + b) == Gather(image, a) + Gather(image, b)
  {
    hide Gather;
    if b == [] {
      GatherEmpty(image);
      assert a + b == a;
    } else {
      var b0, r := b[..|b| - 1], b[|b| - 1];
      GatherJoin(image, a, b0);
      assert a + b == (a + b0) + [r];
      assert Legal(|image|, r);
      GatherPush(image, a + b0, r);
      GatherPush(image, b0, r);
      assert b == b0 + [r];
      Assoc(Gather(image, a), Gather(image, b0), image[r.start..r.start + r.len]);
    }
  }

  /** Two images that agree on every hashed range give the same bytes. */
  lemma {:induction false} GatherAgrees(a: seq<Byte>, b: seq<Byte>, rs: seq<Range>)
    requires AllLegal(|a|, rs) && AllLegal(|b|, rs)
    requires forall i :: 0 <= i < |rs| ==> SameIn(a, b, rs[i])
    ensures Gather(a, rs) == Gather(b, rs)
  {
    if rs != [] {
      GatherAgrees(a, b, rs[..|rs| - 1]);
      assert SameIn(a, b, rs[|rs| - 1]);
    }
  }

  predicate SameIn(a: seq<Byte>, b: seq<Byte>, r: Range) {
    Legal(|a|, r) && Legal(|b|, r) && a[r.start..r.start + r.len] == b[r.start..r.start + r.len]
  }

  // ---- Conservation ----

  function Skipped(h: Header): nat { if h.HasEntry() then 12 else 4 }

  lemma {:induction false} SectionBytes(image: seq<Byte>, h: Header, t: seq<Section>)
    requires AllPlaced(image, h, t) && AllLegal(|image|, SectionRanges(t))
    ensures |Gather(image, SectionRanges(t))| == SizeSum(t)
  {
    if t != [] {
      var t0, s := t[..|t| - 1], t[|t| - 1];
      assert t == t0 + [s];
      SectionRangesLegal(image, h, t0);
      SectionBytes(image, h, t0);
      assert Placed(image, h, s);
      if s.size > 0 {
        GatherPush(image, SectionRanges(t0), Range(s.pointer, s.size));
      } else {
        assert SectionRanges(t) == SectionRanges(t0);
      }
    }
  }

  /** The first n bytes of the image, without the checksum and the directory entry. */
  function Covered(image: seq<Byte>, h: Header, n: nat): seq<Byte>
    requires Sound(image, h) && h.sizeOfHeaders <= n <= |image|
  {
    BeforeSkips(image, h) + image[BehindSkips(h)..n]
  }

  /** The bytes before the last field that is skipped, without the first one. */
  function BeforeSkips(image: seq<Byte>, h: Header): seq<Byte>
    requires Sound(image, h)
  {
    var c, e := h.ChecksumAt(), h.EntryAt();
    if h.HasEntry() then image[..c] + image[c + 4..e] else image[..c]
  }

  function BehindSkips(h: Header): nat {
    if h.HasEntry() then h.EntryAt() + 8 else h.ChecksumAt() + 4
  }

  lemma CoveredExtends(image: seq<Byte>, h: Header, m: nat, n: nat)
    requires |image| < 0x1_0000_0000_0000_0000 && Sound(image, h) && h.sizeOfHeaders <= m <= n <= |image|
    ensures Covered(image, h, m) + image[m..n] == Covered(image, h, n)
  {
    hide Sound, HeaderRanges, BeforeSkips;
    HeaderRangesAre(image, h);
    Join(image, BeforeSkips(image, h), BehindSkips(h), m, n);
  }

  lemma Join(image: seq<Byte>, p: seq<Byte>, a: nat, b: nat, c: nat)
    requires a <= b <= c <= |image|
    ensures p + image[a..b] + image[b..c] == p + image[a..c]
  {
    assert image[a..b] + image[b..c] == image[a..c];
    Assoc(p, image[a..b], image[b..c]);
  }

  function From(a: nat, b: nat): Range
    requires a <= b < 0x1_0000_0000_0000_0000
  {
    Range(a, b - a)
  }

  lemma GatherOne(image: seq<Byte>, r: Range)
    requires Legal(|image|, r)
    ensures AllLegal(|image|, [r])
    ensures Gather(image, [r]) == image[r.start..r.start + r.len]
  {
    assert [r][..0] == [];
    GatherEmpty(image);
  }

  lemma GatherTwo(image: seq<Byte>, a: nat, b: nat, c: nat, d: nat)
    requires |image| < 0x1_0000_0000_0000_0000 && a <= b <= |image| && c <= d <= |image|
    ensures AllLegal(|image|, [From(a, b), From(c, d)])
    ensures Gather(image, [From(a, b), From(c, d)]) == image[a..b] + image[c..d]
  {
    hide Gather, AllLegal;
    var one, r := [From(a, b)], From(c, d);
    GatherOne(image, From(a, b));
    GatherPush(image, one, r);
    assert one + [r] == [From(a, b), From(c, d)];
  }

  lemma GatherThree(image: seq<Byte>, a: nat, b: nat, c: nat, d: nat, e: nat, f: nat)
    requires |image| < 0x1_0000_0000_0000_0000 && a <= b <= |image| && c <= d <= |image| && e <= f <= |image|
    ensures AllLegal(|image|, [From(a, b), From(c, d), From(e, f)])
    ensures Gather(image, [From(a, b), From(c, d), From(e, f)]) == image[a..b] + image[c..d] + image[e..f]
  {
    hide Gather, AllLegal;
    GatherTwo(image, a, b, c, d);
    var two, r := [From(a, b), From(c, d)], From(e, f);
    GatherPush(image, two, r);
    assert two + [r] == [From(a, b), From(c, d), From(e, f)];
  }

  /** The header lengths computed by subtraction are not negative. */
  lemma HeaderRangesAre(image: seq<Byte>, h: Header)
    requires |image| < 0x1_0000_0000_0000_0000 && Sound(image, h)
    ensures var c, e, n := h.ChecksumAt(), h.EntryAt(), h.sizeOfHeaders;
            && c + 4 <= n <= |image| && (h.HasEntry() ==> c + 4 <= e && e + 8 <= n)
            && HeaderRanges(h) ==
               if h.HasEntry() then [From(0, c), From(c + 4, e), From(e + 8, n)] else [From(0, c), From(c + 4, n)]
  {
  }

  lemma HeaderBytes(image: seq<Byte>, h: Header)
    requires |image| < 0x1_0000_0000_0000_0000 && Sound(image, h) && AllLegal(|image|, HeaderRanges(h))
    ensures Gather(image, HeaderRanges(h)) == Covered(image, h, h.sizeOfHeaders)
  {
    hide Gather, Sound, HeaderRanges, AllLegal, From;
    HeaderRangesAre(image, h);
    var c, e, n := h.ChecksumAt(), h.EntryAt(), h.sizeOfHeaders;
    if h.HasEntry() {
      GatherThree(image, 0, c, c + 4, e, e + 8, n);
    } else {
      GatherTwo(image, 0, c, c + 4, n);
    }
    assert image[0..c] == image[..c];
  }

  lemma HeaderByteCount(image: seq<Byte>, h: Header, n: nat)
    requires Sound(image, h) && h.sizeOfHeaders <= n <= |image|
    ensures |Covered(image, h, n)| == n - Skipped(h)
  {
  }

  lemma RangesParts(image: seq<Byte>, h: Header)
    requires |image| < 0x1_0000_0000_0000_0000 && Sound(image, h) && Ranges(image, h).Some?
    requires AllLegal(|image|, Ranges(image, h).value)
    ensures var t, n := Sort(Table(image, h)), |image| - h.Cert();
            var sum := Sum(image, h);
            && AllPlaced(image, h, t)
            && AllLegal(|image|, HeaderRanges(h)) && AllLegal(|image|, SectionRanges(t))
            && (|image| <= sum || sum <= n)
            && Gather(image, Ranges(image, h).value)
               == Gather(image, HeaderRanges(h)) + Gather(image, SectionRanges(t))
                  + if |image| <= sum then [] else image[sum..n]
  {
    hide Sort, Table, HeaderRanges, SectionRanges, Gather, Sum, AllLegal, AllPlaced;
    HeaderRangesLegal(image, h);
    SortedArePlaced(image, h);
    var t := Sort(Table(image, h));
    SectionRangesLegal(image, h, t);
    var body := HeaderRanges(h) + SectionRanges(t);
    GatherJoin(image, HeaderRanges(h), SectionRanges(t));
    var sum := Sum(image, h);
    if |image| > h.Cert() + sum {
      GatherPush(image, body, Range(sum, |image| - h.Cert() - sum));
    } else {
      assert body + [] == body;
    }
  }

  /** The stream of an accepted image is its headers, its sections and its trailing data. */
  lemma MeasureParts(image: seq<Byte>)
    requires Addressable(image) && Measure(image).Some?
    ensures var h := GetPeHeader(image);
            && h.Some? && Sound(image, h.value)
            && var t, n := Sort(Table(image, h.value)), |image| - h.value.Cert();
            var sum := Sum(image, h.value);
            && AllPlaced(image, h.value, t)
            && AllLegal(|image|, HeaderRanges(h.value)) && AllLegal(|image|, SectionRanges(t))
            && (|image| <= sum || sum <= n)
            && Measure(image).value
               == Gather(image, HeaderRanges(h.value)) + Gather(image, SectionRanges(t))
                  + if |image| <= sum then [] else image[sum..n]
  {
    hide Sound, Ranges, AllPlaced, AllLegal, Sort, Table, Gather, SectionRanges, HeaderRanges, Sum;
    AcceptedIsSound(image);
    RangesAreLegal(image, GetPeHeader(image).value);
    RangesParts(image, GetPeHeader(image).value);
  }

  /** Conservation: an accepted image without overlap is hashed completely, except for the checksum,
      the directory entry and as many bytes as the certificates have. */
  lemma HashedByteCount(image: seq<Byte>)
    requires Addressable(image) && Measure(image).Some?
    ensures var h := GetPeHeader(image);
            && h.Some? && Sound(image, h.value)
            && |Measure(image).value| + Skipped(h.value)
               == if |image| > Sum(image, h.value) then |image| - h.value.Cert() else Sum(image, h.value)
  {
    hide Sort, Table, HeaderRanges, SectionRanges, SizeSum, Gather;
    MeasureParts(image);
    var h := GetPeHeader(image).value;
    HeaderBytes(image, h);
    HeaderByteCount(image, h, h.sizeOfHeaders);
    SectionBytes(image, h, Sort(Table(image, h)));
  }

  // ---- Tiling ----

  /** The nonempty sections, in table order, cover [from, from + SizeSum(t)) without a gap. */
  predicate Tiles(t: seq<Section>, from: nat) {
    t == [] || (var t0, s := t[..|t| - 1], t[|t| - 1];
                Tiles(t0, from) && (s.size > 0 ==> s.pointer == from + SizeSum(t0)))
  }

  predicate Tiled(image: seq<Byte>)
    requires Addressable(image) && GetPeHeader(image).Some?
  {
    AcceptedIsSound(image);
    var h := GetPeHeader(image).value;
    Tiles(Sort(Table(image, h)), h.sizeOfHeaders)
  }

  lemma {:induction false} TilesAreContiguous(image: seq<Byte>, h: Header, t: seq<Section>, from: nat)
    requires AllPlaced(image, h, t) && AllLegal(|image|, SectionRanges(t))
    requires Tiles(t, from) && from <= |image|
    ensures from + SizeSum(t) <= |image|
    ensures Gather(image, SectionRanges(t)) == image[from..from + SizeSum(t)]
  {
    if t != [] {
      var t0, s := t[..|t| - 1], t[|t| - 1];
      assert t == t0 + [s];
      SectionRangesLegal(image, h, t0);
      TilesAreContiguous(image, h, t0, from);
      assert Placed(image, h, s);
      if s.size > 0 {
        GatherPush(image, SectionRanges(t0), Range(s.pointer, s.size));
      } else {
        assert SectionRanges(t) == SectionRanges(t0);
      }
    }
  }

  /** When the sections tile the file from the end of the headers, the digest covers the file in
      order, without the checksum, the directory entry and the trailing certificates. */
  lemma TiledImageInOrder(image: seq<Byte>)
    requires Addressable(image) && Measure(image).Some? && Tiled(image)
    ensures var h := GetPeHeader(image).value;
            && Sound(image, h) && h.sizeOfHeaders <= Sum(image, h)
            && (Sum(image, h) + h.Cert() <= |image| ==>
                  Measure(image).value == Covered(image, h, |image| - h.Cert()))
  {
    hide Sort, Table, HeaderRanges, SectionRanges, SizeSum, Gather, Tiles, Covered, Measure;
    MeasureParts(image);
    var h := GetPeHeader(image).value;
    HeaderBytes(image, h);
    TilesAreContiguous(image, h, Sort(Table(image, h)), h.sizeOfHeaders);
    var sum, n := Sum(image, h), |image| - h.Cert();
    if sum <= n {
      CoveredExtends(image, h, h.sizeOfHeaders, sum);
      CoveredExtends(image, h, sum, n);
    }
  }

  /** Hashing the sorted table while skipping empty sections covers the ranges that the published
      procedure covers, which leaves the empty sections out of the table. */
  lemma SkippingWhileHashing(t: seq<Section>)
    ensures SectionRanges(Sort(t)) == SectionRanges(Sort(NonEmpty(t)))
  {
    hide Sort, NonEmpty;
    SkippingCommutes(t);
    RangesOfNonEmpty(Sort(t));
  }

  lemma SectionRangesPush(t: seq<Section>, s: Section)
    ensures SectionRanges(t + [s]) == SectionRanges(t) + if s.size > 0 then [Range(s.pointer, s.size)] else []
    ensures SizeSum(t + [s]) == SizeSum(t) + s.size
  {
    SplitLast(t, s);
  }

  lemma NonEmptyUnfolds(t: seq<Section>)
    requires t != []
    ensures NonEmpty(t) == NonEmpty(t[..|t| - 1]) + if t[|t| - 1].size > 0 then [t[|t| - 1]] else []
  {
  }

  lemma {:induction false} RangesOfNonEmpty(t: seq<Section>)
    ensures SectionRanges(t) == SectionRanges(NonEmpty(t))
  {
    hide SectionRanges, NonEmpty;
    if t == [] {
      assert NonEmpty(t) == [] by { NonEmptyOfNone(); }
    } else {
      var t0, s := t[..|t| - 1], t[|t| - 1];
      RangesOfNonEmpty(t0);
      NonEmptyUnfolds(t);
      assert t == t0 + [s];
      SectionRangesPush(t0, s);
      SectionRangesPush(NonEmpty(t0), s);
      assert NonEmpty(t0) + [] == NonEmpty(t0);
      assert SectionRanges(t0) + [] == SectionRanges(t0);
    }
  }

  lemma NonEmptyOfNone()
    ensures NonEmpty([]) == []
  {
  }

  // ---- The hashing code ----

  /** Steps 4 to 9, with the lengths computed as in the source. */
  method HashHeaders(image: seq<Byte>, h: Header) returns (digest: seq<Byte>)
    requires |image| < 0x1_0000_0000_0000_0000 && Sound(image, h)
    ensures digest == Covered(image, h, h.sizeOfHeaders)
  {
    hide Sound, HeaderRanges;
    HeaderRangesAre(image, h);
    digest := image[..h.ChecksumAt()];
    var base, size: nat := h.ChecksumAt() + 4, 0;
    if !h.HasEntry() {
      size := h.sizeOfHeaders - base;
      if size != 0 {
        digest := digest + image[base..base + size];
      }
    } else {
      size := h.EntryAt() - base;
      if size != 0 {
        digest := digest + image[base..base + size];
      }
      base := h.EntryAt() + 8;
      size := h.sizeOfHeaders - base;
      if size != 0 {
        digest := digest + image[base..base + size];
      }
    }
  }

  /** Steps 13 to 15: hashes the sections of the sorted table and sums their sizes. */
  method HashSections(image: seq<Byte>, h: Header, table: array<Section>, before: seq<Byte>)
    returns (digest: seq<Byte>, sum: nat)
    requires AllPlaced(image, h, table[..])
    ensures AllLegal(|image|, SectionRanges(table[..]))
    ensures digest == before + Gather(image, SectionRanges(table[..]))
    ensures sum == h.sizeOfHeaders + SizeSum(table[..])
  {
    hide SectionRanges, SizeSum, Gather;
    digest, sum := before, h.sizeOfHeaders;
    SectionRangesLegal(image, h, []);
    EmptySections(image);
    var index := 0;
    while index < table.Length
      invariant 0 <= index <= table.Length
      invariant AllLegal(|image|, SectionRanges(table[..index]))
      invariant digest == before + Gather(image, SectionRanges(table[..index]))
      invariant sum == h.sizeOfHeaders + SizeSum(table[..index])
    {
      var section := table[index];
      assert Placed(image, h, section) by { assert section == table[..][index]; }
      SectionStep(image, h, table[..index], section);
      assert table[..index + 1] == table[..index] + [section];
      if section.size != 0 {
        digest := digest + image[section.pointer..section.pointer + section.size];
        sum := sum + section.size;
      }
      index := index + 1;
    }
    assert table[..index] == table[..];
  }

  lemma EmptySections(image: seq<Byte>)
    ensures SectionRanges([]) == [] && Gather(image, []) == [] && SizeSum([]) == 0
  {
  }

  lemma SectionStep(image: seq<Byte>, h: Header, t: seq<Section>, s: Section)
    requires Placed(image, h, s) && AllLegal(|image|, SectionRanges(t))
    ensures AllLegal(|image|, SectionRanges(t + [s]))
    ensures SizeSum(t + [s]) == SizeSum(t) + s.size
    ensures Gather(image, SectionRanges(t + [s])) == Gather(image, SectionRanges(t))
              + if s.size != 0 then image[s.pointer..s.pointer + s.size] else []
  {
    hide Gather, SectionRanges, SizeSum, AllLegal;
    SectionRangesPush(t, s);
    if s.size != 0 {
      GatherPush(image, SectionRanges(t), Range(s.pointer, s.size));
    } else {
      assert SectionRanges(t) + [] == SectionRanges(t);
      assert Gather(image, SectionRanges(t)) + [] == Gather(image, SectionRanges(t));
    }
  }

  /** The image measurement: the digest of the returned bytes, or None for a rejected image. */
  method MeasurePeImage(image: seq<Byte>) returns (digest: Option<seq<Byte>>)
    requires Addressable(image)
    ensures digest == Measure(image)
  {
    hide Sound, GetPeHeader, Table, Sort, SectionRanges, SizeSum, HeaderRanges, Gather, Covered;
    var context := new ImageContext();
    var ok := context.LoadPeHeader(image);
    if !ok {
      return None;
    }
    AcceptedIsSound(image);
    HeaderOfAccepted(image);
    var h := HeaderAt(image, HeaderOffset(image));
    var hashed := HashHeaders(image, h);
    var table := InsertionSort(Table(image, h));
    SortedArePlaced(image, h);
    var sum: nat;
    hashed, sum := HashSections(image, h, table, hashed);
    if |image| > sum {
      var cert: UInt32 := if !h.HasEntry() then 0 else h.certSize;
      if |image| > cert + sum {
        hashed := hashed + image[sum..|image| - cert];
      } else if |image| < cert + sum {
        return None;
      }
    }
    RangesAreLegal(image, h);
    RangesParts(image, h);
    HeaderBytes(image, h);
    assert hashed + [] == hashed;
    return Some(hashed);
  }

  lemma HeaderOfAccepted(image: seq<Byte>)
    requires Addressable(image) && GetPeHeader(image).Some?
    ensures var h := GetPeHeader(image).value;
            && |image| >= 64 && HeaderOffset(image) + 264 <= |image|
            && h == HeaderAt(image, HeaderOffset(image))
            && Sound(image, h) && h.TableAt() + 40 * h.sections <= |image|
  {
    AcceptedIsSound(image);
  }
}
