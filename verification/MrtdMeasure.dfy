/** The measurement loops of measure_ovmf, filling fixed buffers and feeding them to the digest. */
module MrtdMeasure {
  import opened Words
  import opened Buffers
  import opened Mrtd

  // ---- The TDX metadata ----

  function ReadSection(metadata: seq<Byte>, i: nat): Section
    requires 16 + 32 * i + 32 <= |metadata|
  {
    var at := 16 + 32 * i;
    Section(ReadU32(metadata, at), ReadU32(metadata, at + 4), ReadU64(metadata, at + 8),
            ReadU64(metadata, at + 16), ReadU32(metadata, at + 24), ReadU32(metadata, at + 28))
  }

  /** The sections from number i on. */
  function SectionsFrom(metadata: seq<Byte>, i: nat, n: nat): seq<Section>
    requires i <= n && 16 + 32 * n <= |metadata|
    decreases n - i
  {
    if i == n then [] else [ReadSection(metadata, i)] + SectionsFrom(metadata, i + 1, n)
  }

  /** is_valid_descriptor. */
  predicate DescriptorOk(metadata: seq<Byte>)
    requires |metadata| >= 16
  {
    ReadU32(metadata, 0) == 0x4656_4454 && ReadU32(metadata, 8) == 1 && ReadU32(metadata, 12) != 0
  }

  function QemuVersion(v: string): Version {
    if v == "9.2.0" then V9_2_0 else if v == "8.2.2" then V8_2_2 else Other
  }

  /** The bytes fed to the digest by a completed run. */
  function Measure(metadata: seq<Byte>, image: seq<Byte>, version: string): Option<seq<Byte>>
    requires |metadata| >= 16 && |metadata| >= 16 + 32 * ReadU32(metadata, 12)
  {
    if !DescriptorOk(metadata) then None
    else Feed([], AllRecords(image, SectionsFrom(metadata, 0, ReadU32(metadata, 12)), QemuVersion(version)))
  }

  /** A digest input followed by the bytes of more records. */
  function Feed(fed: seq<Byte>, rs: Option<seq<Record>>): Option<seq<Byte>>
    requires rs.Some? ==> RecordsOk(rs.value)
  {
    if rs.None? then None else Some(fed + Stream(rs.value))
  }

  lemma {:induction false} StreamJoin(a: seq<Record>, b: seq<Record>)
    requires RecordsOk(a) && RecordsOk(b)
    ensures RecordsOk(a + b) && Stream(a + b) == Stream(a) + Stream(b)
    decreases |a|
  {
    hide Stream, BytesOfRecord;
    if a == [] {
      assert a + b == b;
      StreamOfNone();
    } else {
      var r, rest := a[0], a[1..];
      StreamJoin(rest, b);
      assert RecordOk(r) && a == [r] + rest && a + b == [r] + (rest + b);
      StreamUnfolds(r, rest);
      StreamUnfolds(r, rest + b);
    }
  }

  lemma StreamOfNone()
    ensures Stream([]) == []
  {
  }

  lemma StreamUnfolds(r: Record, rs: seq<Record>)
    requires RecordOk(r) && RecordsOk(rs)
    ensures RecordsOk([r] + rs) && Stream([r] + rs) == BytesOfRecord(r) + Stream(rs)
  {
    First(r, rs);
  }

  lemma FeedNone(fed: seq<Byte>)
    ensures Feed(fed, Some([])) == Some(fed)
  {
    assert fed + [] == fed;
  }

  lemma FeedJoin(fed: seq<Byte>, a: Option<seq<Record>>, b: Option<seq<Record>>)
    requires a.Some? ==> RecordsOk(a.value)
    requires b.Some? ==> RecordsOk(b.value)
    ensures Join(a, b).Some? ==> RecordsOk(Join(a, b).value)
    ensures Feed(fed, Join(a, b)) == if a.None? then None else Feed(Feed(fed, a).value, b)
  {
    hide Stream;
    if a.Some? && b.Some? {
      StreamJoin(a.value, b.value);
      assert fed + (Stream(a.value) + Stream(b.value)) == fed + Stream(a.value) + Stream(b.value);
    }
  }

  lemma FeedOne(fed: seq<Byte>, r: Record)
    requires RecordOk(r)
    ensures RecordsOk([r]) && Feed(fed, Some([r])) == Some(fed + BytesOfRecord(r))
  {
    StreamUnfolds(r, []);
    StreamOfNone();
    assert [r] + [] == [r];
    assert BytesOfRecord(r) + [] == BytesOfRecord(r);
  }

  /** The stream of a completed run decodes to the operations of its sections, in order. */
  lemma MeasureDecodes(metadata: seq<Byte>, image: seq<Byte>, version: string)
    requires |metadata| >= 16 && |metadata| >= 16 + 32 * ReadU32(metadata, 12)
    requires Measure(metadata, image, version).Some?
    ensures Decode(Measure(metadata, image, version).value)
            == AllRecords(image, SectionsFrom(metadata, 0, ReadU32(metadata, 12)), QemuVersion(version))
  {
    hide Stream, Decode, AllRecords, SectionsFrom;
    var rs := AllRecords(image, SectionsFrom(metadata, 0, ReadU32(metadata, 12)), QemuVersion(version));
    StreamDecodes(rs.value);
    assert [] + Stream(rs.value) == Stream(rs.value);
  }

  // ---- Buffers ----

  /** The first 128 bytes of either record. */
  method FillBlock(buf: array<Byte>, name: seq<Byte>, gpa: UInt64)
    requires buf.Length == 128 && |name| <= 16
    modifies buf
    ensures buf[..] == Block(name, gpa)
  {
    hide BytesOfU64;
    Copy(buf, 0, Zeros(128));
    assert buf[..] == Zeros(128);
    Copy(buf, 0, name);
    assert buf[..] == name + Zeros(128 - |name|);
    Copy(buf, 16, BytesOfU64(gpa));
    BlockParts(name, gpa);
  }

  lemma BlockParts(name: seq<Byte>, gpa: UInt64)
    requires |name| <= 16
    ensures var s := name + Zeros(128 - |name|);
            s[..16] + BytesOfU64(gpa) + s[24..] == Block(name, gpa)
  {
    hide BytesOfU64;
    var s := name + Zeros(128 - |name|);
    assert s[..16] == name + Zeros(16 - |name|);
    assert s[24..] == Zeros(104);
  }

  /** The buffers of measure_ovmf and what has been fed to its digest context. */
  class MrtdContext {
    const buffer128: array<Byte>
    const buffer3: (array<Byte>, array<Byte>, array<Byte>)
    var fed: seq<Byte>

    ghost predicate Valid() {
      && buffer128.Length == 128
      && buffer3.0.Length == 128 && buffer3.1.Length == 128 && buffer3.2.Length == 128
      && buffer3.0 != buffer3.1 && buffer3.1 != buffer3.2 && buffer3.0 != buffer3.2
    }

    ghost function Repr(): set<object> {
      {this, buffer128, buffer3.0, buffer3.1, buffer3.2}
    }

    constructor ()
      ensures Valid() && fed == [] && fresh(Repr())
    {
      buffer128 := new Byte[128](_ => 0);
      var b0 := new Byte[128](_ => 0);
      var b1 := new Byte[128](_ => 0);
      var b2 := new Byte[128](_ => 0);
      buffer3 := (b0, b1, b2);
      fed := [];
    }

    method TdCallMemPageAdd(gpa: UInt64)
      requires Valid()
      modifies buffer128
      ensures buffer128[..] == Block(AddName(), gpa)
    {
      FillBlock(buffer128, AddName(), gpa);
    }

    /** The offset arithmetic of the source is on 64 bits; its callers stay below the wrap-around. */
    method TdCallMrExtend(image: seq<Byte>, gpa: UInt64, dataOffset: UInt64) returns (ok: bool)
      requires Valid() && dataOffset + 256 < 0x1_0000_0000_0000_0000
      modifies buffer3.0, buffer3.1, buffer3.2
      ensures ok <==> dataOffset + 256 <= |image|
      ensures ok ==> buffer3.0[..] == Block(ExtendName(), gpa)
                     && buffer3.1[..] == image[dataOffset..dataOffset + 128]
                     && buffer3.2[..] == image[dataOffset + 128..dataOffset + 256]
    {
      if (dataOffset + 256) % 0x1_0000_0000_0000_0000 > |image| {
        return false;
      }
      FillBlock(buffer3.0, ExtendName(), gpa);
      Copy(buffer3.1, 0, image[dataOffset..dataOffset + 128]);
      Copy(buffer3.2, 0, image[dataOffset + 128..dataOffset + 256]);
      return true;
    }

    /** Feeds one MEM.PAGE.ADD. */
    method AddPage(s: Section, page: nat)
      requires Valid()
      modifies Repr()
      ensures Some(fed) == Feed(old(fed), Some(AddRecords(s, page, 1)))
    {
      hide Stream, BytesOfRecord;
      TdCallMemPageAdd((s.address + page * 4096) % 0x1_0000_0000_0000_0000);
      ghost var r := Add(s.Gpa(page * 4096));
      FeedOne(fed, r);
      OneAdd(s, page);
      fed := fed + buffer128[..];
    }

    /** Feeds the extension of the 256 bytes of the section at `at`. */
    method ExtendChunk(image: seq<Byte>, s: Section, at: nat) returns (ok: bool)
      requires Valid() && s.dataOffset + at + 256 < 0x1_0000_0000_0000_0000
      modifies Repr()
      ensures (if ok then Some(fed) else None) == Feed(old(fed), ExtendRecords(image, s, at, 1))
    {
      hide Feed, Stream, BytesOfRecord, Block;
      FeedFails(fed);
      ok := TdCallMrExtend(image, (s.address + at) % 0x1_0000_0000_0000_0000,
                           (s.dataOffset + at) % 0x1_0000_0000_0000_0000);
      if !ok {
        return false;
      }
      ghost var from := s.dataOffset + at;
      ghost var r := Extend(s.Gpa(at), image[from..from + 256]);
      OneExtend(image, s, at);
      FeedOne(fed, r);
      ExtendBytes(fed, r, buffer3.0[..], buffer3.1[..], buffer3.2[..]);
      fed := fed + buffer3.0[..];
      fed := fed + buffer3.1[..];
      fed := fed + buffer3.2[..];
    }

    /** The 16 extensions of a page. */
    method ExtendPage(image: seq<Byte>, s: Section, page: nat) returns (ok: bool)
      requires Valid() && |image| < 0x8000_0000_0000_0000
      requires page == 0 || s.dataOffset + page * 4096 <= |image|
      modifies Repr()
      ensures (if ok then Some(fed) else None) == Feed(old(fed), ExtendRecords(image, s, page * 4096, 16))
    {
      hide ExtendRecords, Feed;
      var chunk: nat := 0;
      while chunk < 16
        invariant chunk <= 16
        invariant page == chunk == 0 || s.dataOffset + page * 4096 + chunk * 256 <= |image|
        invariant Feed(fed, ExtendRecords(image, s, page * 4096 + chunk * 256, 16 - chunk))
                  == Feed(old(fed), ExtendRecords(image, s, page * 4096, 16))
      {
        var at := page * 4096 + chunk * 256;
        ExtendsJoin(image, s, at, 1, 16 - chunk - 1);
        FeedJoin(fed, ExtendRecords(image, s, at, 1), ExtendRecords(image, s, at + 256, 16 - chunk - 1));
        FeedSome(fed, ExtendRecords(image, s, at, 1));
        ok := ExtendChunk(image, s, at);
        if !ok {
          return false;
        }
        ExtendsAreExtends(image, s, at, 1);
        chunk := chunk + 1;
      }
      NoRecords(image, s, page * 4096 + chunk * 256, 0);
      FeedNone(fed);
      return true;
    }

    /** One section, in the order of the given QEMU version. */
    method MeasureSection(image: seq<Byte>, s: Section, version: string) returns (ok: bool)
      requires Valid() && |image| < 0x8000_0000_0000_0000
      modifies Repr()
      ensures (if ok then Some(fed) else None) == Feed(old(fed), SectionRecords(image, s, QemuVersion(version)))
    {
      hide PagesRecords, AddRecords, ExtendRecords, Feed, Stream;
      FeedFails(fed);
      if s.address % 4096 != 0 {
        return false;
      }
      if s.kind != 7 && (s.address != 0 || s.size != 0) && s.size < s.rawSize {
        return false;
      }
      if s.size % 4096 != 0 {
        return false;
      }
      if s.kind >= 9 {
        return false;
      }
      if version == "9.2.0" {
        ok := PageByPage(image, s);
      } else if version == "8.2.2" {
        ok := PassByPass(image, s);
      } else {
        return false;
      }
    }

    method PageByPage(image: seq<Byte>, s: Section) returns (ok: bool)
      requires Valid() && |image| < 0x8000_0000_0000_0000
      modifies Repr()
      ensures (if ok then Some(fed) else None) == Feed(old(fed), PagesRecords(image, s, 0, s.Pages()))
    {
      hide PagesRecords, AddRecords, ExtendRecords, Feed, Stream;
      var pages, page: nat := s.size / 4096, 0;
      while page < pages
        invariant page <= pages
        invariant s.Extends() && page > 0 ==> s.dataOffset + page * 4096 <= |image|
        invariant Feed(fed, PagesRecords(image, s, page, pages - page))
                  == Feed(old(fed), PagesRecords(image, s, 0, pages))
      {
        ghost var was := fed;
        PagesUnfold(image, s, page, pages - page);
        FeedPage(was, image, s, page, PagesRecords(image, s, page + 1, pages - page - 1));
        if s.Adds() {
          AddPage(s, page);
        }
        if s.Extends() {
          FeedSome(fed, ExtendRecords(image, s, page * 4096, 16));
          ok := ExtendPage(image, s, page);
          if !ok {
            return false;
          }
          ExtendsAreExtends(image, s, page * 4096, 16);
        }
        page := page + 1;
      }
      PagesEnd(image, s, page);
      FeedNone(fed);
      return true;
    }

    method PassByPass(image: seq<Byte>, s: Section) returns (ok: bool)
      requires Valid() && |image| < 0x8000_0000_0000_0000
      modifies Repr()
      ensures (if ok then Some(fed) else None) ==
              Feed(old(fed), Join(Some(if s.Adds() then AddRecords(s, 0, s.Pages()) else []),
                                  if s.Extends() then ExtendRecords(image, s, 0, 16 * s.Pages()) else Some([])))
    {
      hide AddRecords, ExtendRecords, Feed, Stream;
      var pages, page: nat := s.size / 4096, 0;
      ghost var adds := if s.Adds() then AddRecords(s, 0, pages) else [];
      ghost var wanted := if s.Extends() then ExtendRecords(image, s, 0, 16 * pages) else Some([]);
      FeedJoin(fed, Some(adds), wanted);
      FeedNone(fed);
      if s.Adds() {
        while page < pages
          invariant page <= pages
          invariant Feed(fed, Some(AddRecords(s, page, pages - page))) == Feed(old(fed), Some(adds))
        {
          AddsUnfold(s, page, pages - page);
          FeedJoin(fed, Some(AddRecords(s, page, 1)), Some(AddRecords(s, page + 1, pages - page - 1)));
          AddPage(s, page);
          page := page + 1;
        }
        NoRecords(image, s, 0, page);
        FeedNone(fed);
      }
      ghost var added := fed;
      if s.Extends() {
        page := 0;
        while page < pages
          invariant page <= pages
          invariant page > 0 ==> s.dataOffset + page * 4096 <= |image|
          invariant Feed(fed, ExtendRecords(image, s, page * 4096, 16 * (pages - page))) == Feed(added, wanted)
        {
          ExtendsJoin(image, s, page * 4096, 16, 16 * (pages - page - 1));
          FeedJoin(fed, ExtendRecords(image, s, page * 4096, 16),
                   ExtendRecords(image, s, (page + 1) * 4096, 16 * (pages - page - 1)));
          FeedSome(fed, ExtendRecords(image, s, page * 4096, 16));
          ok := ExtendPage(image, s, page);
          if !ok {
            return false;
          }
          ExtendsAreExtends(image, s, page * 4096, 16);
          page := page + 1;
        }
        NoRecords(image, s, page * 4096, 0);
      }
      FeedNone(fed);
      return true;
    }
  }

  /** measure_ovmf behind the lookup of the metadata; the digest of the result is the MRTD. */
  method MeasureOvmf(metadata: seq<Byte>, image: seq<Byte>, version: string) returns (measured: Option<seq<Byte>>)
    requires |metadata| >= 16 && |metadata| >= 16 + 32 * ReadU32(metadata, 12)
    requires |image| < 0x8000_0000_0000_0000
    ensures measured == Measure(metadata, image, version)
  {
    hide AllRecords, SectionRecords, SectionsFrom, Feed, Stream;
    if !DescriptorOk(metadata) {
      return None;
    }
    var ctx := new MrtdContext();
    var n: nat := ReadU32(metadata, 12);
    var i: nat := 0;
    ghost var v := QemuVersion(version);
    while i < n
      invariant i <= n && ctx.Valid() && fresh(ctx.Repr())
      invariant Feed(ctx.fed, AllRecords(image, SectionsFrom(metadata, i, n), v))
                == Feed([], AllRecords(image, SectionsFrom(metadata, 0, n), v))
    {
      var section := ReadSection(metadata, i);
      SectionsUnfold(metadata, i, n, image, v);
      FeedJoin(ctx.fed, SectionRecords(image, section, v), AllRecords(image, SectionsFrom(metadata, i + 1, n), v));
      FeedFails(ctx.fed);
      ghost var was := ctx.fed;
      var ok := ctx.MeasureSection(image, section, version);
      if !ok {
        FeedSome(was, SectionRecords(image, section, v));
        return None;
      }
      FeedSome(was, SectionRecords(image, section, v));
      i := i + 1;
    }
    SectionsEnd(metadata, n, image, v);
    FeedNone(ctx.fed);
    return Some(ctx.fed);
  }

  // ---- Unfoldings ----

  lemma FeedFails(fed: seq<Byte>)
    ensures Feed(fed, None) == None
  {
  }

  lemma FeedSome(fed: seq<Byte>, rs: Option<seq<Record>>)
    requires rs.Some? ==> RecordsOk(rs.value)
    ensures Feed(fed, rs).Some? <==> rs.Some?
  {
  }

  lemma OneAdd(s: Section, page: nat)
    ensures AddRecords(s, page, 1) == [Add(s.Gpa(page * 4096))]
    ensures BytesOfRecord(Add(s.Gpa(page * 4096)))
            == Block(AddName(), (s.address + page * 4096) % 0x1_0000_0000_0000_0000)
  {
  }

  lemma AddsUnfold(s: Section, page: nat, n: nat)
    requires n > 0
    ensures Some(AddRecords(s, page, n)) == Join(Some(AddRecords(s, page, 1)), Some(AddRecords(s, page + 1, n - 1)))
  {
    AddsJoin(s, page, n);
  }

  lemma OneExtend(image: seq<Byte>, s: Section, at: nat)
    requires s.dataOffset + at + 256 <= |image|
    ensures var from := s.dataOffset + at;
            |image[from..from + 256]| == 256
            && ExtendRecords(image, s, at, 1) == Some([Extend(s.Gpa(at), image[from..from + 256])])
  {
    var r := [Extend(s.Gpa(at), image[s.dataOffset + at..s.dataOffset + at + 256])];
    NoRecords(image, s, at + 256, 0);
    assert r + [] == r;
    assert ExtendRecords(image, s, at, 1) == Join(Some(r), ExtendRecords(image, s, at + 256, 0));
  }

  lemma ExtendBytes(was: seq<Byte>, r: Record, b0: seq<Byte>, b1: seq<Byte>, b2: seq<Byte>)
    requires r.Extend? && |r.data| == 256
    requires b0 == Block(ExtendName(), r.gpa) && b1 == r.data[..128] && b2 == r.data[128..]
    ensures was + b0 + b1 + b2 == was + BytesOfRecord(r)
  {
    hide Block;
    assert b1 + b2 == r.data;
    assert was + b0 + b1 + b2 == was + (b0 + (b1 + b2));
  }

  lemma PagesUnfold(image: seq<Byte>, s: Section, page: nat, n: nat)
    requires n > 0
    ensures PagesRecords(image, s, page, n)
            == Join(PageRecords(image, s, page), PagesRecords(image, s, page + 1, n - 1))
  {
  }

  lemma PagesEnd(image: seq<Byte>, s: Section, page: nat)
    ensures PagesRecords(image, s, page, 0) == Some([])
  {
  }

  /** Feeding a page and what follows it, operation by operation. */
  lemma FeedPage(fed: seq<Byte>, image: seq<Byte>, s: Section, page: nat, rest: Option<seq<Record>>)
    requires rest.Some? ==> RecordsOk(rest.value)
    ensures Join(PageRecords(image, s, page), rest).Some? ==> RecordsOk(Join(PageRecords(image, s, page), rest).value)
    ensures var fed1 := if s.Adds() then Feed(fed, Some(AddRecords(s, page, 1))) else Some(fed);
            var fed2 := if s.Extends() then Feed(fed1.value, ExtendRecords(image, s, page * 4096, 16)) else fed1;
            fed1.Some? && Feed(fed, Join(PageRecords(image, s, page), rest))
                          == if fed2.None? then None else Feed(fed2.value, rest)
  {
    hide AddRecords, ExtendRecords, Stream;
    var adds := Some(if s.Adds() then AddRecords(s, page, 1) else []);
    var wanted := if s.Extends() then ExtendRecords(image, s, page * 4096, 16) else Some([]);
    FeedJoin(fed, PageRecords(image, s, page), rest);
    FeedJoin(fed, adds, wanted);
    FeedNone(fed);
    if adds.Some? {
      FeedNone(Feed(fed, adds).value);
    }
  }

  lemma SectionsUnfold(metadata: seq<Byte>, i: nat, n: nat, image: seq<Byte>, v: Version)
    requires i < n && 16 + 32 * n <= |metadata|
    ensures AllRecords(image, SectionsFrom(metadata, i, n), v)
            == Join(SectionRecords(image, ReadSection(metadata, i), v),
                    AllRecords(image, SectionsFrom(metadata, i + 1, n), v))
  {
    hide SectionRecords, ReadSection;
    var rest := SectionsFrom(metadata, i + 1, n);
    assert ([ReadSection(metadata, i)] + rest)[1..] == rest;
  }

  lemma SectionsEnd(metadata: seq<Byte>, n: nat, image: seq<Byte>, v: Version)
    requires 16 + 32 * n <= |metadata|
    ensures AllRecords(image, SectionsFrom(metadata, n, n), v) == Some([])
  {
  }
}
