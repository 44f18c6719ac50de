/** The TDX metadata and the measured records byte by byte. */
module MrtdLayout {
  import opened Words
  import opened Mrtd
  import opened MrtdMeasure

  // ---- The metadata ----

  /** tdx_metadata_section_t, field by field. */
  function BytesOfSection(s: Section): (b: seq<Byte>)
    ensures |b| == 32
  {
    BytesOfU32(s.dataOffset) + BytesOfU32(s.rawSize) + BytesOfU64(s.address) + BytesOfU64(s.size)
      + BytesOfU32(s.kind) + BytesOfU32(s.attributes)
  }

  function BytesOfSections(ss: seq<Section>): (b: seq<Byte>)
    ensures |b| == 32 * |ss|
  {
    if ss == [] then [] else BytesOfSection(ss[0]) + BytesOfSections(ss[1..])
  }

  /** The descriptor, "TDVF" and three words, and its sections. */
  function BytesOfMetadata(length: UInt32, version: UInt32, ss: seq<Section>): (b: seq<Byte>)
    requires |ss| < 0x1_0000_0000
    ensures |b| == 16 + 32 * |ss|
  {
    Ascii("TDVF") + BytesOfU32(length) + BytesOfU32(version) + BytesOfU32(|ss|) + BytesOfSections(ss)
  }

  lemma {:induction false} SectionWritten(ss: seq<Section>, i: nat)
    requires i < |ss|
    ensures BytesOfSections(ss)[32 * i..32 * i + 32] == BytesOfSection(ss[i])
  {
    hide BytesOfSection;
    if i > 0 {
      SectionWritten(ss[1..], i - 1);
      var rest := BytesOfSections(ss[1..]);
      assert BytesOfSections(ss)[32 * i..32 * i + 32] == rest[32 * i - 32..32 * i];
    }
  }

  lemma SectionFields(b: seq<Byte>, at: nat, s: Section)
    requires at + 32 <= |b| && b[at..at + 32] == BytesOfSection(s)
    ensures ReadU32(b, at) == s.dataOffset && ReadU32(b, at + 4) == s.rawSize
    ensures ReadU64(b, at + 8) == s.address && ReadU64(b, at + 16) == s.size
    ensures ReadU32(b, at + 24) == s.kind && ReadU32(b, at + 28) == s.attributes
  {
    hide ReadU32, ReadU64, BytesOfU32, BytesOfU64;
    var t := b[at..at + 32];
    assert t[0..4] == BytesOfU32(s.dataOffset) && t[4..8] == BytesOfU32(s.rawSize);
    assert t[8..16] == BytesOfU64(s.address) && t[16..24] == BytesOfU64(s.size);
    assert t[24..28] == BytesOfU32(s.kind) && t[28..32] == BytesOfU32(s.attributes);
    ReadSlice(b, at);
    ReadSlice(b, at + 4);
    ReadThere(b, at + 8);
    ReadThere(b, at + 16);
    ReadSlice(b, at + 24);
    ReadSlice(b, at + 28);
    assert forall k, n :: 0 <= k <= n <= 32 ==> b[at + k..at + n] == t[k..n];
  }

  /** Metadata that is written field by field is read back, whatever follows it. */
  lemma MetadataReads(length: UInt32, version: UInt32, ss: seq<Section>, rest: seq<Byte>)
    requires |ss| < 0x1_0000_0000
    ensures var b := BytesOfMetadata(length, version, ss) + rest;
            && (DescriptorOk(b) <==> version == 1 && ss != [])
            && ReadU32(b, 12) == |ss| && SectionsFrom(b, 0, |ss|) == ss
  {
    hide ReadU32, ReadSection, BytesOfMetadata, BytesOfSection, BytesOfSections, SectionsFrom;
    var b := BytesOfMetadata(length, version, ss) + rest;
    DescriptorReads(length, version, ss, rest);
    forall i | 0 <= i < |ss| ensures ReadSection(b, i) == ss[i] {
      SectionReads(length, version, ss, rest, i);
    }
    SectionsRead(b, ss, 0);
  }

  lemma DescriptorReads(length: UInt32, version: UInt32, ss: seq<Section>, rest: seq<Byte>)
    requires |ss| < 0x1_0000_0000
    ensures var b := BytesOfMetadata(length, version, ss) + rest;
            ReadU32(b, 0) == 0x4656_4454 && ReadU32(b, 8) == version && ReadU32(b, 12) == |ss|
  {
    hide ReadU32, BytesOfU32, BytesOfSections, Ascii;
    var b := BytesOfMetadata(length, version, ss) + rest;
    assert b[0..4] == Ascii("TDVF") && b[8..12] == BytesOfU32(version) && b[12..16] == BytesOfU32(|ss|);
    ReadSlice(b, 0);
    ReadSlice(b, 8);
    ReadSlice(b, 12);
    Signature();
  }

  lemma SectionReads(length: UInt32, version: UInt32, ss: seq<Section>, rest: seq<Byte>, i: nat)
    requires i < |ss| < 0x1_0000_0000
    ensures ReadSection(BytesOfMetadata(length, version, ss) + rest, i) == ss[i]
  {
    hide ReadU32, ReadU64, BytesOfU32, BytesOfSections, BytesOfSection, Ascii;
    var b, at := BytesOfMetadata(length, version, ss) + rest, 16 + 32 * i;
    SectionWritten(ss, i);
    assert b[at..at + 32] == BytesOfSections(ss)[32 * i..32 * i + 32];
    SectionFields(b, at, ss[i]);
  }

  lemma Signature()
    ensures ReadU32(Ascii("TDVF"), 0) == 0x4656_4454
  {
  }

  lemma {:induction false} SectionsRead(b: seq<Byte>, ss: seq<Section>, i: nat)
    requires i <= |ss| && 16 + 32 * |ss| <= |b|
    requires forall k :: 0 <= k < |ss| ==> ReadSection(b, k) == ss[k]
    ensures SectionsFrom(b, i, |ss|) == ss[i..]
    decreases |ss| - i
  {
    hide ReadSection;
    if i < |ss| {
      SectionsRead(b, ss, i + 1);
    }
  }

  // ---- The records ----

  /** A block: a name, zeros up to byte 16, an address with its low byte first, and zeros. */
  ghost predicate LaidOut(b: seq<Byte>, name: seq<Byte>, gpa: UInt64) {
    var low, high := gpa % 0x1_0000_0000, gpa / 0x1_0000_0000;
    && |b| == 128 && |name| <= 16 && b[..|name|] == name
    && (forall k :: |name| <= k < 16 || 24 <= k < 128 ==> b[k] == 0)
    && b[16] == low % 0x100 && b[17] == low / 0x100 % 0x100
    && b[18] == low / 0x1_0000 % 0x100 && b[19] == low / 0x100_0000
    && b[20] == high % 0x100 && b[21] == high / 0x100 % 0x100
    && b[22] == high / 0x1_0000 % 0x100 && b[23] == high / 0x100_0000
  }

  lemma BlockLayout(name: seq<Byte>, gpa: UInt64)
    requires |name| <= 16
    ensures LaidOut(Block(name, gpa), name, gpa)
  {
    hide BytesOfU32;
    var b, low, high := Block(name, gpa), gpa % 0x1_0000_0000, gpa / 0x1_0000_0000;
    WordBytes(low);
    WordBytes(high);
    assert b[16..20] == BytesOfU32(low) && b[20..24] == BytesOfU32(high);
    assert forall k :: 0 <= k < 4 ==> b[16..20][k] == b[16 + k] && b[20..24][k] == b[20 + k];
  }

  /** The records byte by byte, with the names of the operations in ASCII. */
  lemma RecordLayout(r: Record)
    requires RecordOk(r)
    ensures var b := BytesOfRecord(r);
            && LaidOut(b[..128], if r.Add? then Ascii("MEM.PAGE.ADD") else Ascii("MR.EXTEND"), r.gpa)
            && b[128..] == if r.Add? then [] else r.data
  {
    hide LaidOut, Block;
    assert AddName() == Ascii("MEM.PAGE.ADD") && ExtendName() == Ascii("MR.EXTEND");
    var name := if r.Add? then AddName() else ExtendName();
    BlockLayout(name, r.gpa);
    assert BytesOfRecord(r)[..128] == Block(name, r.gpa);
  }

  lemma WordBytes(x: UInt32)
    ensures var b := BytesOfU32(x);
            && b[0] == x % 0x100 && b[1] == x / 0x100 % 0x100
            && b[2] == x / 0x1_0000 % 0x100 && b[3] == x / 0x100_0000
  {
  }

  /** The whole measurement of an image whose metadata is written field by field: the records of its
      sections in order, for the two supported versions. */
  lemma WrittenMeasures(length: UInt32, ss: seq<Section>, rest: seq<Byte>, image: seq<Byte>, version: string)
    requires 0 < |ss| < 0x1_0000_0000
    ensures var b := BytesOfMetadata(length, 1, ss) + rest;
            var v := if version == "9.2.0" then V9_2_0 else if version == "8.2.2" then V8_2_2 else Other;
            && ReadU32(b, 12) == |ss|
            && (Measure(b, image, version).Some? <==> AllRecords(image, ss, v).Some?)
            && (Measure(b, image, version).Some? ==>
                  Decode(Measure(b, image, version).value) == AllRecords(image, ss, v)
                  && Measure(b, image, version).value == Stream(AllRecords(image, ss, v).value))
  {
    hide AllRecords, Stream, Decode, BytesOfMetadata, ReadU32, SectionsFrom, DescriptorOk;
    MetadataReads(length, 1, ss, rest);
    var b := BytesOfMetadata(length, 1, ss) + rest;
    if Measure(b, image, version).Some? {
      MeasureDecodes(b, image, version);
    }
  }
}
