/** The record stream that gives the TDX build-time measurement (MRTD) of an OVMF image. */
module Mrtd {
  import opened Words

  /** One measured operation: a page is added, or 256 bytes are extended. */
  datatype Record = Add(gpa: UInt64) | Extend(gpa: UInt64, data: seq<Byte>)

  predicate RecordOk(r: Record) { r.Extend? ==> |r.data| == 256 }

  predicate RecordsOk(rs: seq<Record>) {
    forall r :: r in rs ==> RecordOk(r)
  }

  // "MEM.PAGE.ADD" and "MR.EXTEND"
  function AddName(): (s: seq<Byte>)
    ensures |s| == 12
  {
    [0x4D, 0x45, 0x4D, 0x2E, 0x50, 0x41, 0x47, 0x45, 0x2E, 0x41, 0x44, 0x44]
  }

  function ExtendName(): (s: seq<Byte>)
    ensures |s| == 9
  {
    [0x4D, 0x52, 0x2E, 0x45, 0x58, 0x54, 0x45, 0x4E, 0x44]
  }

  /** The 128-byte record with a name at 0 and an address at 16. */
  function Block(name: seq<Byte>, gpa: UInt64): (s: seq<Byte>)
    requires |name| <= 16
    ensures |s| == 128
  {
    name + Zeros(16 - |name|) + BytesOfU64(gpa) + Zeros(104)
  }

  function BytesOfRecord(r: Record): (s: seq<Byte>)
    requires RecordOk(r)
    ensures |s| == if r.Add? then 128 else 384
  {
    match r
    case Add(gpa) => Block(AddName(), gpa)
    case Extend(gpa, data) => Block(ExtendName(), gpa) + data
  }

  function Stream(rs: seq<Record>): (s: seq<Byte>)
    requires RecordsOk(rs)
  {
    if rs == [] then []
    else
      assert RecordOk(rs[0]);
      BytesOfRecord(rs[0]) + Stream(rs[1..])
  }

  // ---- The sections ----

  datatype Section = Section(
    dataOffset: UInt32, rawSize: UInt32, address: UInt64, size: UInt64, kind: UInt32, attributes: UInt32)
  {
    /** The guest-physical address of a byte of the section. */
    function Gpa(at: nat): UInt64 { (address + at) % 0x1_0000_0000_0000_0000 }

    /** MEM.PAGE.ADD unless bit 1 of the attributes is set; MR.EXTEND when bit 0 is set. */
    function Adds(): bool { attributes / 2 % 2 == 0 }
    function Extends(): bool { attributes % 2 == 1 }

    function Pages(): nat { size / 4096 }
  }

  /** The checks on a section, in the order of the source. */
  predicate SectionOk(s: Section) {
    && s.address % 4096 == 0
    && !(s.kind != 7 && (s.address != 0 || s.size != 0) && s.size < s.rawSize)
    && s.size % 4096 == 0
    && s.kind < 9
  }

  // ---- The operations of a section ----

  function AddRecords(s: Section, page: nat, n: nat): (rs: seq<Record>)
    ensures RecordsOk(rs)
    decreases n
  {
    if n == 0 then [] else [Add(s.Gpa(page * 4096))] + AddRecords(s, page + 1, n - 1)
  }

  /** n extensions from byte `at` of the section, or None when the image ends too early. */
  function ExtendRecords(image: seq<Byte>, s: Section, at: nat, n: nat): (rs: Option<seq<Record>>)
    ensures rs.Some? ==> RecordsOk(rs.value)
    decreases n
  {
    if n == 0 then Some([])
    else
      var from := s.dataOffset + at;
      if from + 256 > |image| then None
      else Join(Some([Extend(s.Gpa(at), image[from..from + 256])]), ExtendRecords(image, s, at + 256, n - 1))
  }

  function Join(a: Option<seq<Record>>, b: Option<seq<Record>>): (r: Option<seq<Record>>)
    ensures a.Some? && b.Some? && RecordsOk(a.value) && RecordsOk(b.value) ==>
              r.Some? && RecordsOk(r.value)
  {
    if a.None? || b.None? then None else Some(a.value + b.value)
  }

  /** One page in the order of QEMU 9.2.0. */
  function PageRecords(image: seq<Byte>, s: Section, page: nat): (rs: Option<seq<Record>>)
    ensures rs.Some? ==> RecordsOk(rs.value)
  {
    Join(Some(if s.Adds() then AddRecords(s, page, 1) else []),
         if s.Extends() then ExtendRecords(image, s, page * 4096, 16) else Some([]))
  }

  function PagesRecords(image: seq<Byte>, s: Section, page: nat, n: nat): (rs: Option<seq<Record>>)
    ensures rs.Some? ==> RecordsOk(rs.value)
    decreases n
  {
    if n == 0 then Some([])
    else Join(PageRecords(image, s, page), PagesRecords(image, s, page + 1, n - 1))
  }

  datatype Version = V9_2_0 | V8_2_2 | Other

  function SectionRecords(image: seq<Byte>, s: Section, v: Version): (rs: Option<seq<Record>>)
    ensures rs.Some? ==> RecordsOk(rs.value)
  {
    if !SectionOk(s) then None
    else
      match v
      case V9_2_0 => PagesRecords(image, s, 0, s.Pages())
      case V8_2_2 =>
        Join(Some(if s.Adds() then AddRecords(s, 0, s.Pages()) else []),
             if s.Extends() then ExtendRecords(image, s, 0, 16 * s.Pages()) else Some([]))
      case Other => None
  }

  function AllRecords(image: seq<Byte>, sections: seq<Section>, v: Version): (rs: Option<seq<Record>>)
    ensures rs.Some? ==> RecordsOk(rs.value)
  {
    if sections == [] then Some([])
    else Join(SectionRecords(image, sections[0], v), AllRecords(image, sections[1..], v))
  }

  // ---- Decoding ----

  /** The record at the start of a stream. */
  function DecodeOne(s: seq<Byte>): (r: Option<Record>)
    ensures r.Some? ==> RecordOk(r.value) && |BytesOfRecord(r.value)| <= |s|
  {
    if |s| < 128 then None
    else
      var gpa := ReadU64(s, 16);
      if s[..128] == Block(AddName(), gpa) then Some(Add(gpa))
      else if |s| >= 384 && s[..128] == Block(ExtendName(), gpa) then Some(Extend(gpa, s[128..384]))
      else None
  }

  function Decode(s: seq<Byte>): (rs: Option<seq<Record>>)
    decreases |s|
  {
    if s == [] then Some([])
    else
      var r := DecodeOne(s);
      if r.None? then None
      else
        var rest := Decode(s[|BytesOfRecord(r.value)|..]);
        if rest.None? then None else Some([r.value] + rest.value)
  }

  lemma BlockAddress(name: seq<Byte>, gpa: UInt64, rest: seq<Byte>)
    requires |name| <= 16
    ensures ReadU64(Block(name, gpa) + rest, 16) == gpa
  {
    hide ReadU64, BytesOfU64;
    var s := Block(name, gpa) + rest;
    assert s[16..24] == BytesOfU64(gpa);
    ReadThere(s, 16);
  }

  lemma ReadThere(s: seq<Byte>, at: nat)
    requires at + 8 <= |s|
    ensures ReadU64(s, at) == ReadU64(s[at..at + 8], 0)
  {
    var t := s[at..at + 8];
    assert forall k :: 0 <= k < 8 ==> t[k] == s[at + k];
  }

  lemma DecodesOne(r: Record, rest: seq<Byte>)
    requires RecordOk(r)
    ensures DecodeOne(BytesOfRecord(r) + rest) == Some(r)
  {
    hide ReadU64, BytesOfU64;
    var s := BytesOfRecord(r) + rest;
    match r
    case Add(gpa) =>
      BlockAddress(AddName(), gpa, rest);
      assert s[..128] == Block(AddName(), gpa);
    case Extend(gpa, data) =>
      BlockAddress(ExtendName(), gpa, data + rest);
      assert s == Block(ExtendName(), gpa) + (data + rest);
      assert s[..128] == Block(ExtendName(), gpa);
      assert s[..128][1] == 0x52 && Block(AddName(), gpa)[1] == 0x45;
      assert s[128..384] == data;
  }

  /** The stream is uniquely decodable: it gives back the operations in order. */
  lemma {:induction false} StreamDecodes(rs: seq<Record>)
    requires RecordsOk(rs)
    ensures Decode(Stream(rs)) == Some(rs)
  {
    hide BytesOfRecord, DecodeOne;
    if rs != [] {
      var r, rest := rs[0], Stream(rs[1..]);
      assert RecordOk(r);
      DecodesOne(r, rest);
      StreamDecodes(rs[1..]);
      assert (BytesOfRecord(r) + rest)[|BytesOfRecord(r)|..] == rest;
      assert rs == [r] + rs[1..];
    }
  }

  // ---- What is extended ----

  function Payload(rs: seq<Record>): seq<Byte> {
    if rs == [] then [] else (if rs[0].Extend? then rs[0].data else []) + Payload(rs[1..])
  }

  /** The additions, or the extensions, in order. */
  function Only(rs: seq<Record>, adds: bool): seq<Record> {
    if rs == [] then [] else (if rs[0].Add? == adds then [rs[0]] else []) + Only(rs[1..], adds)
  }

  function OnlyAdds(rs: seq<Record>): seq<Record> { Only(rs, true) }

  function OnlyExtends(rs: seq<Record>): seq<Record> { Only(rs, false) }

  lemma OnlyUnfolds(r: Record, rs: seq<Record>, adds: bool)
    ensures Only([], adds) == []
    ensures Only([r] + rs, adds) == (if r.Add? == adds then [r] else []) + Only(rs, adds)
  {
    First(r, rs);
  }

  lemma PayloadUnfolds(r: Record, rs: seq<Record>)
    ensures Payload([]) == []
    ensures Payload([r] + rs) == (if r.Extend? then r.data else []) + Payload(rs)
  {
    First(r, rs);
  }

  lemma {:induction false} OnlySplits(a: seq<Record>, b: seq<Record>, adds: bool)
    ensures Only(a + b, adds) == Only(a, adds) + Only(b, adds)
    decreases |a|
  {
    hide Only;
    if a == [] {
      assert a + b == b;
      OnlyUnfolds(Add(0), [], adds);
    } else {
      var r, rest := a[0], a[1..];
      OnlySplits(rest, b, adds);
      assert a == [r] + rest && a + b == [r] + (rest + b);
      OnlyUnfolds(r, rest, adds);
      OnlyUnfolds(r, rest + b, adds);
    }
  }

  lemma {:induction false} PayloadSplits(a: seq<Record>, b: seq<Record>)
    ensures Payload(a + b) == Payload(a) + Payload(b)
    decreases |a|
  {
    hide Payload;
    if a == [] {
      assert a + b == b;
      PayloadUnfolds(Add(0), []);
    } else {
      var r, rest := a[0], a[1..];
      PayloadSplits(rest, b);
      assert a == [r] + rest && a + b == [r] + (rest + b);
      PayloadUnfolds(r, rest);
      PayloadUnfolds(r, rest + b);
    }
  }

  lemma Splits(a: seq<Record>, b: seq<Record>)
    ensures OnlyAdds(a + b) == OnlyAdds(a) + OnlyAdds(b)
    ensures OnlyExtends(a + b) == OnlyExtends(a) + OnlyExtends(b)
    ensures Payload(a + b) == Payload(a) + Payload(b)
  {
    OnlySplits(a, b, true);
    OnlySplits(a, b, false);
    PayloadSplits(a, b);
  }

  lemma {:induction false} AddsAreAdds(s: Section, page: nat, n: nat)
    ensures var rs := AddRecords(s, page, n);
            OnlyAdds(rs) == rs && OnlyExtends(rs) == [] && Payload(rs) == []
    decreases n
  {
    if n > 0 {
      AddsAreAdds(s, page + 1, n - 1);
      First(Add(s.Gpa(page * 4096)), AddRecords(s, page + 1, n - 1));
    }
  }

  lemma First(r: Record, rs: seq<Record>)
    ensures ([r] + rs)[0] == r && ([r] + rs)[1..] == rs
  {
  }

  /** n extensions read the image range of n chunks, and need nothing but its existence. */
  lemma {:induction false} ExtendsAreExtends(image: seq<Byte>, s: Section, at: nat, n: nat)
    ensures var rs, from := ExtendRecords(image, s, at, n), s.dataOffset + at;
            && (rs.Some? <==> n == 0 || from + 256 * n <= |image|)
            && (rs.Some? ==>
                  && OnlyAdds(rs.value) == [] && OnlyExtends(rs.value) == rs.value && |rs.value| == n
                  && (n > 0 ==> Payload(rs.value) == image[from..from + 256 * n]))
    decreases n
  {
    if n > 0 {
      var from := s.dataOffset + at;
      ExtendsAreExtends(image, s, at + 256, n - 1);
      if from + 256 <= |image| {
        var rest := ExtendRecords(image, s, at + 256, n - 1);
        if rest.Some? {
          First(Extend(s.Gpa(at), image[from..from + 256]), rest.value);
          assert n == 1 ==> rest.value == [];
        }
      }
    }
  }

  lemma {:induction false} ExtendsJoin(image: seq<Byte>, s: Section, at: nat, m: nat, n: nat)
    ensures ExtendRecords(image, s, at, m + n)
            == Join(ExtendRecords(image, s, at, m), ExtendRecords(image, s, at + 256 * m, n))
    decreases m
  {
    if m > 0 {
      ExtendsJoin(image, s, at + 256, m - 1, n);
      if s.dataOffset + at + 256 <= |image| {
        var first := [Extend(s.Gpa(at), image[s.dataOffset + at..s.dataOffset + at + 256])];
        var a, b := ExtendRecords(image, s, at + 256, m - 1), ExtendRecords(image, s, at + 256 * m, n);
        if a.Some? && b.Some? {
          assert first + (a.value + b.value) == first + a.value + b.value;
        }
      }
    } else if ExtendRecords(image, s, at, n).Some? {
      assert [] + ExtendRecords(image, s, at, n).value == ExtendRecords(image, s, at, n).value;
    }
  }

  /** The page-wise order of 9.2.0 and the two passes of 8.2.2 perform the same operations: the
      latter is the stable partition of the former, and both fail on the same sections. */
  lemma {:induction false} PagesPartition(image: seq<Byte>, s: Section, page: nat, n: nat)
    ensures var rs := PagesRecords(image, s, page, n);
            var wanted := if s.Extends() then ExtendRecords(image, s, page * 4096, 16 * n) else Some([]);
            && (rs.Some? <==> wanted.Some?)
            && (rs.Some? ==>
                  && OnlyAdds(rs.value) == (if s.Adds() then AddRecords(s, page, n) else [])
                  && OnlyExtends(rs.value) == wanted.value)
    decreases n
  {
    hide ExtendRecords, AddRecords;
    if n == 0 {
      NoRecords(image, s, page * 4096, page);
    } else {
      PagesPartition(image, s, page + 1, n - 1);
      ExtendsJoin(image, s, page * 4096, 16, 16 * (n - 1));
      PagePartition(image, s, page);
      AddsJoin(s, page, n);
      var one, rest := PageRecords(image, s, page), PagesRecords(image, s, page + 1, n - 1);
      if one.Some? && rest.Some? {
        Splits(one.value, rest.value);
      }
    }
  }

  lemma NoRecords(image: seq<Byte>, s: Section, at: nat, page: nat)
    ensures ExtendRecords(image, s, at, 0) == Some([]) && AddRecords(s, page, 0) == []
  {
  }

  lemma AddsJoin(s: Section, page: nat, n: nat)
    requires n > 0
    ensures AddRecords(s, page, n) == AddRecords(s, page, 1) + AddRecords(s, page + 1, n - 1)
  {
    assert AddRecords(s, page + 1, 0) == [];
  }

  lemma PagePartition(image: seq<Byte>, s: Section, page: nat)
    ensures var rs := PageRecords(image, s, page);
            var wanted := if s.Extends() then ExtendRecords(image, s, page * 4096, 16) else Some([]);
            && (rs.Some? <==> wanted.Some?)
            && (rs.Some? ==>
                  && OnlyAdds(rs.value) == (if s.Adds() then AddRecords(s, page, 1) else [])
                  && OnlyExtends(rs.value) == wanted.value)
  {
    hide ExtendRecords, AddRecords;
    AddsAreAdds(s, page, 1);
    ExtendsAreExtends(image, s, page * 4096, 16);
    var adds := if s.Adds() then AddRecords(s, page, 1) else [];
    var wanted := if s.Extends() then ExtendRecords(image, s, page * 4096, 16) else Some([]);
    if wanted.Some? {
      Splits(adds, wanted.value);
    }
  }

  /** Per section, for every image. */
  lemma OrdersAgree(image: seq<Byte>, s: Section)
    ensures var a, b := SectionRecords(image, s, V9_2_0), SectionRecords(image, s, V8_2_2);
            && (a.Some? <==> b.Some?)
            && (a.Some? ==> b.value == OnlyAdds(a.value) + OnlyExtends(a.value))
  {
    PagesPartition(image, s, 0, s.Pages());
  }

  /** Over a whole image, both orders complete or fail together. */
  lemma {:induction false} BothComplete(image: seq<Byte>, sections: seq<Section>)
    ensures AllRecords(image, sections, V9_2_0).Some? <==> AllRecords(image, sections, V8_2_2).Some?
  {
    hide SectionRecords;
    if sections != [] {
      OrdersAgree(image, sections[0]);
      BothComplete(image, sections[1..]);
    }
  }

  /** On a completed run an extended section covers exactly its image range, in image order. */
  lemma SectionPayload(image: seq<Byte>, s: Section, v: Version)
    requires SectionRecords(image, s, v).Some? && s.size > 0
    ensures s.Extends() ==> s.dataOffset + s.size <= |image|
    ensures Payload(SectionRecords(image, s, v).value)
            == if s.Extends() then image[s.dataOffset..s.dataOffset + s.size] else []
  {
    hide PagesRecords, ExtendRecords, AddRecords, Payload, OnlyAdds, OnlyExtends;
    OrdersAgree(image, s);
    PagesPartition(image, s, 0, s.Pages());
    var a := SectionRecords(image, s, V9_2_0).value;
    ExtendsAreExtends(image, s, 0, 16 * s.Pages());
    PayloadIsExtends(a);
    Splits(OnlyAdds(a), OnlyExtends(a));
    NoPayload();
  }

  lemma NoPayload()
    ensures Payload([]) == []
  {
  }

  lemma {:induction false} PayloadIsExtends(rs: seq<Record>)
    ensures Payload(rs) == Payload(OnlyExtends(rs))
    ensures OnlyExtends(OnlyExtends(rs)) == OnlyExtends(rs) && OnlyExtends(OnlyAdds(rs)) == []
    ensures Payload(OnlyAdds(rs)) == []
  {
    if rs != [] {
      PayloadIsExtends(rs[1..]);
      Splits(if rs[0].Extend? then [rs[0]] else [], OnlyExtends(rs[1..]));
      Splits(if rs[0].Add? then [rs[0]] else [], OnlyAdds(rs[1..]));
      assert [rs[0]][1..] == [];
    }
  }

  /** The k-th extension measures the k-th 256 bytes of the section at their guest address. */
  lemma {:induction false} ExtensionAt(image: seq<Byte>, s: Section, at: nat, n: nat, k: nat)
    requires ExtendRecords(image, s, at, n).Some? && k < n
    ensures var rs, from := ExtendRecords(image, s, at, n).value, s.dataOffset + at + 256 * k;
            |rs| == n && from + 256 <= |image| && rs[k] == Extend(s.Gpa(at + 256 * k), image[from..from + 256])
    decreases n
  {
    if k > 0 {
      ExtensionAt(image, s, at + 256, n - 1, k - 1);
    } else {
      ExtendsAreExtends(image, s, at, n);
    }
  }

  /** The additions and the extensions of a completed run, in either order. */
  lemma SectionParts(image: seq<Byte>, s: Section, v: Version)
    requires SectionRecords(image, s, v).Some?
    ensures var rs, n := SectionRecords(image, s, v).value, s.Pages();
            && OnlyAdds(rs) == (if s.Adds() then AddRecords(s, 0, n) else [])
            && Some(OnlyExtends(rs)) == if s.Extends() then ExtendRecords(image, s, 0, 16 * n) else Some([])
  {
    hide PagesRecords, ExtendRecords, AddRecords, OnlyAdds, OnlyExtends;
    PagesPartition(image, s, 0, s.Pages());
    if v == V8_2_2 {
      var adds := if s.Adds() then AddRecords(s, 0, s.Pages()) else [];
      var wanted := if s.Extends() then ExtendRecords(image, s, 0, 16 * s.Pages()) else Some([]);
      AddsAreAdds(s, 0, s.Pages());
      ExtendsAreExtends(image, s, 0, 16 * s.Pages());
      NothingOnly();
      Splits(adds, wanted.value);
      assert [] + wanted.value == wanted.value;
      assert adds + [] == adds;
    }
  }

  lemma NothingOnly()
    ensures OnlyAdds([]) == [] && OnlyExtends([]) == []
  {
  }

  lemma {:induction false} AdditionAt(s: Section, page: nat, n: nat, k: nat)
    requires k < n
    ensures |AddRecords(s, page, n)| == n && AddRecords(s, page, n)[k] == Add(s.Gpa(4096 * (page + k)))
    decreases n
  {
    if n > 1 {
      AdditionAt(s, page + 1, n - 1, if k > 0 then k - 1 else 0);
    }
  }

  /** A completed run adds every page of a section unless bit 1 of its attributes is set, in address order,
      and extends every 256 bytes of it when bit 0 is set. */
  lemma AddedAndExtended(image: seq<Byte>, s: Section, v: Version)
    requires SectionRecords(image, s, v).Some?
    ensures var rs := SectionRecords(image, s, v).value;
            && |OnlyAdds(rs)| == (if s.attributes / 2 % 2 == 0 then s.size / 4096 else 0)
            && |OnlyExtends(rs)| == (if s.attributes % 2 == 1 then s.size / 256 else 0)
            && (forall k :: 0 <= k < |OnlyAdds(rs)| ==>
                  OnlyAdds(rs)[k] == Add((s.address + 4096 * k) % 0x1_0000_0000_0000_0000))
            && (forall k :: 0 <= k < |OnlyExtends(rs)| ==>
                  var from := s.dataOffset + 256 * k;
                  && from + 256 <= |image|
                  && OnlyExtends(rs)[k] == Extend((s.address + 256 * k) % 0x1_0000_0000_0000_0000,
                                                  image[from..from + 256]))
  {
    hide SectionRecords, ExtendRecords, AddRecords, OnlyAdds, OnlyExtends;
    SectionParts(image, s, v);
    SectionCompletes(image, s, v);
    var adds, exts := OnlyAdds(SectionRecords(image, s, v).value), OnlyExtends(SectionRecords(image, s, v).value);
    if s.Adds() {
      AddsAreAdds(s, 0, s.Pages());
      NoRecords(image, s, 0, 0);
      forall k | 0 <= k < s.Pages()
        ensures |adds| == s.Pages() && adds[k] == Add((s.address + 4096 * k) % 0x1_0000_0000_0000_0000)
      {
        AdditionAt(s, 0, s.Pages(), k);
      }
    }
    if s.Extends() {
      ExtendsAreExtends(image, s, 0, 16 * s.Pages());
      forall k | 0 <= k < 16 * s.Pages()
        ensures var from := s.dataOffset + 256 * k;
                && from + 256 <= |image|
                && exts[k] == Extend((s.address + 256 * k) % 0x1_0000_0000_0000_0000, image[from..from + 256])
      {
        ExtensionAt(image, s, 0, 16 * s.Pages(), k);
      }
    }
  }

  /** When a section can be measured: what counts is its size in memory, not its raw size. */
  lemma SectionCompletes(image: seq<Byte>, s: Section, v: Version)
    ensures SectionRecords(image, s, v).Some? <==>
            && v != Other && s.kind <= 8
            && s.address % 4096 == s.size % 4096 == 0
            && (s.kind == 7 || s.rawSize <= s.size || s.address == s.size == 0)
            && (s.attributes % 2 == 1 && s.size > 0 ==> s.dataOffset + s.size <= |image|)
  {
    hide PagesRecords, ExtendRecords, AddRecords;
    OrdersAgree(image, s);
    ExtendsAreExtends(image, s, 0, 16 * s.Pages());
  }

  /** A section of 16 raw bytes in one page of memory passes every check, and an image that ends with
      its raw data cannot be measured all the same. */
  lemma RawSizeIsNotEnough()
    ensures var s, image := Section(0, 16, 0, 4096, 1, 1), Zeros(16);
            && SectionOk(s) && s.dataOffset + s.rawSize == |image|
            && SectionRecords(image, s, V9_2_0).None? && SectionRecords(image, s, V8_2_2).None?
  {
    hide SectionRecords;
    var s, image := Section(0, 16, 0, 4096, 1, 1), Zeros(16);
    SectionCompletes(image, s, V9_2_0);
    SectionCompletes(image, s, V8_2_2);
  }
}
