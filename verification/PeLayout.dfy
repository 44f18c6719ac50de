/** PE images from their named fields: where the validator finds each of them, which images it accepts, and
    what is hashed. */
module PeLayout {
  import opened Words
  import opened PeImage
  import opened PeSort
  import opened PeMeasure

  // ---- The structures, field by field ----

  function Words2(ws: seq<UInt16>): (b: seq<Byte>)
    ensures |b| == 2 * |ws|
  {
    if ws == [] then [] else BytesOfU16(ws[0]) + Words2(ws[1..])
  }

  /** EFI_IMAGE_DOS_HEADER; `words` are its fields between the first and the last, e_cblp to e_res2. */
  datatype DosHeader = DosHeader(magic: UInt16, words: seq<UInt16>, lfanew: UInt32)

  function BytesOfDos(d: DosHeader): (b: seq<Byte>)
    requires |d.words| == 29
    ensures |b| == 64
  {
    BytesOfU16(d.magic) + Words2(d.words) + BytesOfU32(d.lfanew)
  }

  /** EFI_IMAGE_FILE_HEADER */
  datatype FileHeader = FileHeader(
    machine: UInt16, numberOfSections: UInt16, timeDateStamp: UInt32, pointerToSymbolTable: UInt32,
    numberOfSymbols: UInt32, sizeOfOptionalHeader: UInt16, characteristics: UInt16)

  function BytesOfFileHeader(f: FileHeader): (b: seq<Byte>)
    ensures |b| == 20
  {
    BytesOfU16(f.machine) + BytesOfU16(f.numberOfSections) + BytesOfU32(f.timeDateStamp)
      + BytesOfU32(f.pointerToSymbolTable) + BytesOfU32(f.numberOfSymbols)
      + BytesOfU16(f.sizeOfOptionalHeader) + BytesOfU16(f.characteristics)
  }

  /** The standard fields, as far as both kinds of optional header have them. */
  datatype Standard = Standard(
    magic: UInt16, majorLinkerVersion: Byte, minorLinkerVersion: Byte, sizeOfCode: UInt32,
    sizeOfInitializedData: UInt32, sizeOfUninitializedData: UInt32, addressOfEntryPoint: UInt32, baseOfCode: UInt32)

  function BytesOfStandard(s: Standard): (b: seq<Byte>)
    ensures |b| == 24
  {
    BytesOfU16(s.magic) + [s.majorLinkerVersion, s.minorLinkerVersion] + BytesOfU32(s.sizeOfCode)
      + BytesOfU32(s.sizeOfInitializedData) + BytesOfU32(s.sizeOfUninitializedData)
      + BytesOfU32(s.addressOfEntryPoint) + BytesOfU32(s.baseOfCode)
  }

  /** The fields that follow the image base. `versions` are the six words from
      MajorOperatingSystemVersion to MinorSubsystemVersion. */
  datatype Windows = Windows(
    sectionAlignment: UInt32, fileAlignment: UInt32, versions: seq<UInt16>, win32VersionValue: UInt32,
    sizeOfImage: UInt32, sizeOfHeaders: UInt32, checkSum: UInt32, subsystem: UInt16, dllCharacteristics: UInt16)

  function BytesOfWindows(w: Windows): (b: seq<Byte>)
    requires |w.versions| == 6
    ensures |b| == 40
  {
    BytesOfU32(w.sectionAlignment) + BytesOfU32(w.fileAlignment) + Words2(w.versions)
      + BytesOfU32(w.win32VersionValue) + BytesOfU32(w.sizeOfImage) + BytesOfU32(w.sizeOfHeaders)
      + BytesOfU32(w.checkSum) + BytesOfU16(w.subsystem) + BytesOfU16(w.dllCharacteristics)
  }

  datatype Directory = Directory(virtualAddress: UInt32, size: UInt32)

  function BytesOfDirectories(ds: seq<Directory>): (b: seq<Byte>)
    ensures |b| == 8 * |ds|
  {
    if ds == [] then []
    else BytesOfU32(ds[0].virtualAddress) + BytesOfU32(ds[0].size) + BytesOfDirectories(ds[1..])
  }

  /** EFI_IMAGE_OPTIONAL_HEADER32, which the magic 0x10B announces, and EFI_IMAGE_OPTIONAL_HEADER64 */
  datatype Optional =
    | Pe32(standard: Standard, baseOfData: UInt32, imageBase32: UInt32, windows: Windows, stackReserve32: UInt32,
           stackCommit32: UInt32, heapReserve32: UInt32, heapCommit32: UInt32, loaderFlags: UInt32,
           numberOfRvaAndSizes: UInt32, directories: seq<Directory>)
    | Pe32Plus(standard: Standard, imageBase: UInt64, windows: Windows, stackReserve: UInt64, stackCommit: UInt64,
               heapReserve: UInt64, heapCommit: UInt64, loaderFlags: UInt32, numberOfRvaAndSizes: UInt32,
               directories: seq<Directory>)
  {
    /** Length without the directories. */
    function Fixed(): nat { if Pe32Plus? then 112 else 96 }

    predicate Ok() { |windows.versions| == 6 && (Pe32? <==> standard.magic == 0x10B) }
  }

  /** Standard fields and image base: as long in both. */
  function BytesOfFront(o: Optional): (b: seq<Byte>)
    ensures |b| == 32
  {
    BytesOfStandard(o.standard)
      + if o.Pe32? then BytesOfU32(o.baseOfData) + BytesOfU32(o.imageBase32) else BytesOfU64(o.imageBase)
  }

  /** The sizes of stack and heap. */
  function BytesOfReserves(o: Optional): (b: seq<Byte>)
    ensures |b| == if o.Pe32? then 16 else 32
  {
    if o.Pe32? then
      BytesOfU32(o.stackReserve32) + BytesOfU32(o.stackCommit32) + BytesOfU32(o.heapReserve32)
        + BytesOfU32(o.heapCommit32)
    else
      BytesOfU64(o.stackReserve) + BytesOfU64(o.stackCommit) + BytesOfU64(o.heapReserve) + BytesOfU64(o.heapCommit)
  }

  /** EFI_IMAGE_NT_HEADERS32 and EFI_IMAGE_NT_HEADERS64 */
  function BytesOfNt(signature: UInt32, f: FileHeader, o: Optional): (b: seq<Byte>)
    requires |o.windows.versions| == 6
    ensures |b| == 24 + o.Fixed() + 8 * |o.directories|
  {
    BytesOfU32(signature) + BytesOfFileHeader(f) + BytesOfFront(o) + BytesOfWindows(o.windows) + BytesOfReserves(o)
      + BytesOfU32(o.loaderFlags) + BytesOfU32(o.numberOfRvaAndSizes) + BytesOfDirectories(o.directories)
  }

  /** EFI_IMAGE_SECTION_HEADER */
  datatype SectionHeader = SectionHeader(
    name: seq<Byte>, virtualSize: UInt32, virtualAddress: UInt32, sizeOfRawData: UInt32, pointerToRawData: UInt32,
    pointerToRelocations: UInt32, pointerToLinenumbers: UInt32, numberOfRelocations: UInt16,
    numberOfLinenumbers: UInt16, characteristics: UInt32)

  function BytesOfSection(s: SectionHeader): (b: seq<Byte>)
    requires |s.name| == 8
    ensures |b| == 40
  {
    s.name + BytesOfU32(s.virtualSize) + BytesOfU32(s.virtualAddress) + BytesOfU32(s.sizeOfRawData)
      + BytesOfU32(s.pointerToRawData) + BytesOfU32(s.pointerToRelocations) + BytesOfU32(s.pointerToLinenumbers)
      + BytesOfU16(s.numberOfRelocations) + BytesOfU16(s.numberOfLinenumbers) + BytesOfU32(s.characteristics)
  }

  // ---- Where the fields are found ----

  /** `part` lies at `at`. */
  predicate Lies(b: seq<Byte>, at: nat, part: seq<Byte>) {
    at + |part| <= |b| && b[at..at + |part|] == part
  }

  lemma LiesIn(b: seq<Byte>, at: nat, part: seq<Byte>, d: nat, inner: seq<Byte>)
    requires Lies(b, at, part) && Lies(part, d, inner)
    ensures Lies(b, at + d, inner)
  {
    forall i | 0 <= i < |inner| ensures b[at + d + i] == inner[i] {
      assert part[d..d + |inner|][i] == part[d + i] == b[at..at + |part|][d + i];
    }
  }

  lemma Read32(b: seq<Byte>, at: nat, x: UInt32)
    requires Lies(b, at, BytesOfU32(x))
    ensures ReadU32(b, at) == x
  {
    hide ReadU32, BytesOfU32;
    ReadSlice(b, at);
  }

  lemma Read16(b: seq<Byte>, at: nat, x: UInt16)
    requires Lies(b, at, BytesOfU16(x))
    ensures ReadU16(b, at) == x
  {
    var t := b[at..at + 2];
    assert t[0] == b[at] && t[1] == b[at + 1];
  }

  /** The three fields of a section header that are used. */
  lemma SectionReads(image: seq<Byte>, at: nat, s: SectionHeader)
    requires |s.name| == 8 && Lies(image, at, BytesOfSection(s))
    ensures SectionAt(image, at) == Section(s.virtualAddress, s.sizeOfRawData, s.pointerToRawData)
  {
    hide ReadU32, BytesOfU32, BytesOfU16;
    var b := BytesOfSection(s);
    assert b[12..16] == BytesOfU32(s.virtualAddress) && b[16..20] == BytesOfU32(s.sizeOfRawData);
    assert b[20..24] == BytesOfU32(s.pointerToRawData);
    LiesIn(image, at, b, 12, BytesOfU32(s.virtualAddress));
    LiesIn(image, at, b, 16, BytesOfU32(s.sizeOfRawData));
    LiesIn(image, at, b, 20, BytesOfU32(s.pointerToRawData));
    Read32(image, at + 12, s.virtualAddress);
    Read32(image, at + 16, s.sizeOfRawData);
    Read32(image, at + 20, s.pointerToRawData);
  }

  lemma DosReads(image: seq<Byte>, d: DosHeader)
    requires |d.words| == 29 && Lies(image, 0, BytesOfDos(d))
    ensures ReadU16(image, 0) == d.magic && ReadU32(image, 60) == d.lfanew
  {
    hide ReadU32, ReadU16, BytesOfU32, BytesOfU16, Words2;
    var b := BytesOfDos(d);
    assert b[0..2] == BytesOfU16(d.magic) && b[60..64] == BytesOfU32(d.lfanew);
    LiesIn(image, 0, b, 0, BytesOfU16(d.magic));
    LiesIn(image, 0, b, 60, BytesOfU32(d.lfanew));
    Read16(image, 0, d.magic);
    Read32(image, 60, d.lfanew);
  }

  lemma FileHeaderReads(image: seq<Byte>, at: nat, f: FileHeader)
    requires Lies(image, at, BytesOfFileHeader(f))
    ensures ReadU16(image, at) == f.machine && ReadU16(image, at + 2) == f.numberOfSections
    ensures ReadU16(image, at + 16) == f.sizeOfOptionalHeader
  {
    hide ReadU16, BytesOfU32, BytesOfU16;
    var b := BytesOfFileHeader(f);
    assert b[0..2] == BytesOfU16(f.machine) && b[2..4] == BytesOfU16(f.numberOfSections);
    assert b[16..18] == BytesOfU16(f.sizeOfOptionalHeader);
    LiesIn(image, at, b, 0, BytesOfU16(f.machine));
    LiesIn(image, at, b, 2, BytesOfU16(f.numberOfSections));
    LiesIn(image, at, b, 16, BytesOfU16(f.sizeOfOptionalHeader));
    Read16(image, at, f.machine);
    Read16(image, at + 2, f.numberOfSections);
    Read16(image, at + 16, f.sizeOfOptionalHeader);
  }

  lemma WindowsReads(image: seq<Byte>, at: nat, w: Windows)
    requires |w.versions| == 6 && Lies(image, at, BytesOfWindows(w))
    ensures ReadU32(image, at + 24) == w.sizeOfImage && ReadU32(image, at + 28) == w.sizeOfHeaders
    ensures Lies(image, at + 32, BytesOfU32(w.checkSum))
  {
    hide ReadU32, BytesOfU32, BytesOfU16, Words2;
    var b := BytesOfWindows(w);
    assert b[24..28] == BytesOfU32(w.sizeOfImage) && b[28..32] == BytesOfU32(w.sizeOfHeaders);
    assert b[32..36] == BytesOfU32(w.checkSum);
    LiesIn(image, at, b, 24, BytesOfU32(w.sizeOfImage));
    LiesIn(image, at, b, 28, BytesOfU32(w.sizeOfHeaders));
    LiesIn(image, at, b, 32, BytesOfU32(w.checkSum));
    Read32(image, at + 24, w.sizeOfImage);
    Read32(image, at + 28, w.sizeOfHeaders);
  }

  lemma {:induction false} DirectoryLies(ds: seq<Directory>, i: nat)
    requires i < |ds|
    ensures Lies(BytesOfDirectories(ds), 8 * i, BytesOfU32(ds[i].virtualAddress) + BytesOfU32(ds[i].size))
  {
    hide BytesOfU32;
    var b := BytesOfDirectories(ds);
    if i == 0 {
      assert b[0..8] == BytesOfU32(ds[0].virtualAddress) + BytesOfU32(ds[0].size);
    } else {
      DirectoryLies(ds[1..], i - 1);
      var rest := BytesOfDirectories(ds[1..]);
      assert b[8..] == rest;
      assert Lies(b, 8, rest);
      LiesIn(b, 8, rest, 8 * (i - 1), BytesOfU32(ds[i].virtualAddress) + BytesOfU32(ds[i].size));
    }
  }

  /** The parts of the headers behind the file header. */
  lemma NtParts(image: seq<Byte>, off: nat, signature: UInt32, f: FileHeader, o: Optional)
    requires |o.windows.versions| == 6 && Lies(image, off, BytesOfNt(signature, f, o))
    ensures var numRva := off + if o.Pe32Plus? then 132 else 116;
            && Lies(image, off, BytesOfU32(signature)) && Lies(image, off + 4, BytesOfFileHeader(f))
            && Lies(image, off + 24, BytesOfFront(o)) && Lies(image, off + 56, BytesOfWindows(o.windows))
            && Lies(image, numRva, BytesOfU32(o.numberOfRvaAndSizes))
            && Lies(image, numRva + 4, BytesOfDirectories(o.directories))
  {
    hide BytesOfU32, BytesOfFileHeader, BytesOfFront, BytesOfWindows, BytesOfReserves, BytesOfDirectories;
    var b, n := BytesOfNt(signature, f, o), if o.Pe32Plus? then 132 else 116;
    assert b[0..4] == BytesOfU32(signature) && b[4..24] == BytesOfFileHeader(f) && b[24..56] == BytesOfFront(o);
    assert b[56..96] == BytesOfWindows(o.windows) && b[n..n + 4] == BytesOfU32(o.numberOfRvaAndSizes);
    assert b[n + 4..n + 4 + |BytesOfDirectories(o.directories)|] == BytesOfDirectories(o.directories);
    LiesIn(image, off, b, 0, BytesOfU32(signature));
    LiesIn(image, off, b, 4, BytesOfFileHeader(f));
    LiesIn(image, off, b, 24, BytesOfFront(o));
    LiesIn(image, off, b, 56, BytesOfWindows(o.windows));
    LiesIn(image, off, b, n, BytesOfU32(o.numberOfRvaAndSizes));
    LiesIn(image, off, b, n + 4, BytesOfDirectories(o.directories));
  }

  lemma FrontReads(image: seq<Byte>, at: nat, o: Optional)
    requires Lies(image, at, BytesOfFront(o))
    ensures ReadU16(image, at) == o.standard.magic
  {
    hide ReadU16, BytesOfU16, BytesOfU32, BytesOfU64;
    assert BytesOfFront(o)[0..2] == BytesOfU16(o.standard.magic);
    LiesIn(image, at, BytesOfFront(o), 0, BytesOfU16(o.standard.magic));
    Read16(image, at, o.standard.magic);
  }

  /** The fields of written headers, for both kinds: each is read from where it lies, and the checksum and
      the security directory are the bytes that the hashing leaves out. */
  lemma HeaderReads(image: seq<Byte>, off: UInt32, signature: UInt32, f: FileHeader, o: Optional)
    requires o.Ok() && Lies(image, off, BytesOfNt(signature, f, o)) && off + 264 <= |image|
    ensures ReadU32(image, off) == signature && ReadU16(image, off + 24) == o.standard.magic
    ensures var h := HeaderAt(image, off);
            && h.off == off && h.plus == o.Pe32Plus? && h.machine == f.machine && h.sections == f.numberOfSections
            && h.optSize == f.sizeOfOptionalHeader && h.sizeOfImage == o.windows.sizeOfImage
            && h.sizeOfHeaders == o.windows.sizeOfHeaders && h.numRva == o.numberOfRvaAndSizes
            && h.Fixed() == o.Fixed() && Lies(image, h.ChecksumAt(), BytesOfU32(o.windows.checkSum))
            && (|o.directories| > 4 ==>
                  var d := o.directories[4];
                  && h.certAddress == d.virtualAddress && h.certSize == d.size
                  && Lies(image, h.EntryAt(), BytesOfU32(d.virtualAddress) + BytesOfU32(d.size)))
  {
    hide ReadU16, ReadU32, BytesOfU32, BytesOfNt, BytesOfFileHeader, BytesOfFront, BytesOfWindows, BytesOfDirectories,
         Lies;
    NtParts(image, off, signature, f, o);
    Read32(image, off, signature);
    FileHeaderReads(image, off + 4, f);
    FrontReads(image, off + 24, o);
    WindowsReads(image, off + 56, o.windows);
    var n := off + if o.Pe32Plus? then 132 else 116;
    Read32(image, n, o.numberOfRvaAndSizes);
    if |o.directories| > 4 {
      DirectoryLies(o.directories, 4);
      EntryReads(image, n + 4, o.directories);
    }
  }

  lemma EntryReads(image: seq<Byte>, at: nat, ds: seq<Directory>)
    requires |ds| > 4 && Lies(image, at, BytesOfDirectories(ds))
    ensures Lies(image, at + 32, BytesOfU32(ds[4].virtualAddress) + BytesOfU32(ds[4].size))
    ensures ReadU32(image, at + 32) == ds[4].virtualAddress && ReadU32(image, at + 36) == ds[4].size
  {
    hide ReadU32, BytesOfU32, BytesOfDirectories, Lies;
    DirectoryLies(ds, 4);
    LiesIn(image, at, BytesOfDirectories(ds), 32, BytesOfU32(ds[4].virtualAddress) + BytesOfU32(ds[4].size));
    PairLies(image, at + 32, BytesOfU32(ds[4].virtualAddress), BytesOfU32(ds[4].size));
    Read32(image, at + 32, ds[4].virtualAddress);
    Read32(image, at + 36, ds[4].size);
  }

  lemma PairLies(b: seq<Byte>, at: nat, x: seq<Byte>, y: seq<Byte>)
    requires Lies(b, at, x + y)
    ensures Lies(b, at, x) && Lies(b, at + |x|, y)
  {
    hide Lies;
    assert Lies(x + y, 0, x) && Lies(x + y, |x|, y) by { Ends(x, y); }
    LiesIn(b, at, x + y, 0, x);
    LiesIn(b, at, x + y, |x|, y);
  }

  lemma Ends(x: seq<Byte>, y: seq<Byte>)
    ensures Lies(x + y, 0, x) && Lies(x + y, |x|, y)
  {
  }

  // ---- Which images are accepted ----

  function BytesOfSections(ss: seq<SectionHeader>): (b: seq<Byte>)
    requires forall s :: s in ss ==> |s.name| == 8
    ensures |b| == 40 * |ss|
  {
    if ss == [] then [] else BytesOfSection(ss[0]) + BytesOfSections(ss[1..])
  }

  datatype Parts = Parts(dos: DosHeader, signature: UInt32, file: FileHeader, optional: Optional,
                         sections: seq<SectionHeader>)
  {
    /** Sizes of the lists, and as many directories as are announced, up to the 16 of the structure. */
    predicate Ok() {
      && |dos.words| == 29 && optional.Ok() && |sections| == file.numberOfSections
      && (forall s :: s in sections ==> |s.name| == 8)
      && |optional.directories| == Min(optional.numberOfRvaAndSizes, 16)
    }

    /** Where the headers start, and where the section table does. */
    function At(): UInt32 { if dos.magic == 0x5A4D then dos.lfanew else 0 }
    function TableAt(): nat { At() as nat + 24 + file.sizeOfOptionalHeader }
  }

  /** An image whose headers lie where the DOS header says or, without its magic, at the start, and whose
      section table follows them and starts below 4 GiB. */
  ghost predicate Written(image: seq<Byte>, p: Parts) {
    && p.Ok() && |image| < 0x1_0000_0000_0000_0000 && p.TableAt() < 0x1_0000_0000
    && Lies(image, 0, BytesOfDos(p.dos))
    && Lies(image, p.At(), BytesOfNt(p.signature, p.file, p.optional)) && p.At() + 264 <= |image|
    && Lies(image, p.TableAt(), BytesOfSections(p.sections))
  }

  lemma {:induction false} SectionLies(ss: seq<SectionHeader>, i: nat)
    requires i < |ss| && forall s :: s in ss ==> |s.name| == 8
    ensures |ss[i].name| == 8 && Lies(BytesOfSections(ss), 40 * i, BytesOfSection(ss[i]))
  {
    hide BytesOfSection;
    assert ss[0] in ss;
    if i > 0 {
      SectionLies(ss[1..], i - 1);
      var b, rest := BytesOfSections(ss), BytesOfSections(ss[1..]);
      assert b[40..] == rest;
      assert Lies(b, 40, rest);
      LiesIn(b, 40, rest, 40 * (i - 1), BytesOfSection(ss[i]));
    }
  }

  function Used(s: SectionHeader): Section {
    Section(s.virtualAddress, s.sizeOfRawData, s.pointerToRawData)
  }

  lemma TableReads(image: seq<Byte>, p: Parts, i: nat)
    requires Written(image, p) && i < |p.sections|
    ensures p.TableAt() + 40 * i + 40 <= |image|
    ensures SectionAt(image, p.TableAt() + 40 * i) == Used(p.sections[i])
  {
    hide BytesOfSections, BytesOfSection, BytesOfDos, BytesOfNt, SectionAt;
    SectionLies(p.sections, i);
    LiesIn(image, p.TableAt(), BytesOfSections(p.sections), 40 * i, BytesOfSection(p.sections[i]));
    SectionReads(image, p.TableAt() + 40 * i, p.sections[i]);
  }

  /** The checks in plain arithmetic on the named fields. */
  ghost predicate Acceptable(image: seq<Byte>, p: Parts)
    requires p.Ok()
  {
    var f, o, w := p.file, p.optional, p.optional.windows;
    && p.signature == 0x4550 && o.standard.magic in {0x10B, 0x20B}
    && f.machine in {0x14C, 0x8664, 0xEBC, 0xAA64}
    && o.numberOfRvaAndSizes <= 16
    && f.sizeOfOptionalHeader == o.Fixed() + 8 * o.numberOfRvaAndSizes
    && p.TableAt() < w.sizeOfHeaders && p.TableAt() + 40 * |p.sections| <= w.sizeOfHeaders
    && w.sizeOfHeaders <= |image|
    && w.sizeOfHeaders < w.sizeOfImage && p.TableAt() + 40 * |p.sections| + 40 <= w.sizeOfImage
    && (o.numberOfRvaAndSizes > 4 && o.directories[4].size > 0 ==>
          o.directories[4].virtualAddress + o.directories[4].size <= Min(|image|, 0xFFFF_FFFF))
    && forall s :: s in p.sections && s.sizeOfRawData > 0 ==>
         && w.sizeOfHeaders <= s.virtualAddress && w.sizeOfHeaders <= s.pointerToRawData
         && s.pointerToRawData + s.sizeOfRawData <= Min(|image|, 0xFFFF_FFFF)
  }

  /** A written image is accepted exactly when its fields pass the checks, and then the header that is
      used has these fields. */
  lemma AcceptedExactly(image: seq<Byte>, p: Parts)
    requires Written(image, p)
    ensures GetPeHeader(image).Some? <==> Acceptable(image, p)
    ensures GetPeHeader(image).Some? ==>
              GetPeHeader(image) == Some(HeaderAt(image, p.At()))
              && GetPeHeader(image).value.TableAt() == p.TableAt()
  {
    hide BytesOfSections, BytesOfDos, BytesOfNt, SectionAt, HeaderAt, ReadU16, ReadU32, ImageRead, Lies, SectionsOk,
         CertOk, SizesOk;
    var off := p.At();
    DosReads(image, p.dos);
    HeaderReads(image, off, p.signature, p.file, p.optional);
    HeaderThere(image, p.At());
    var h := HeaderAt(image, off);
    SizesExactly(image, h);
    CertExactly(image, h);
    if SizesOk(image, h) {
      SectionsExactly(image, p, h);
    }
  }

  lemma HeaderThere(image: seq<Byte>, off: UInt32)
    requires 64 <= |image| < 0x1_0000_0000_0000_0000 && HeaderOffset(image) == off && off + 264 <= |image|
    ensures PeFields(image) == if ReadU32(image, off) == 0x4550 && ReadU16(image, off + 24) in {0x10B, 0x20B}
                               then Some(HeaderAt(image, off)) else None
  {
    hide HeaderAt, ReadU16, ReadU32, ImageRead, HeaderOffset;
    ReadIsComplete(image, 0, 64);
    ReadIsComplete(image, off, 264);
  }

  lemma SizesExactly(image: seq<Byte>, h: Header)
    requires |image| < 0x1_0000_0000_0000_0000 && h.TableAt() < 0x1_0000_0000
    ensures SizesOk(image, h) <==>
            && h.numRva <= 16 && h.optSize == h.Fixed() + 8 * h.numRva
            && h.TableAt() < h.sizeOfHeaders && h.TableAt() + 40 * h.sections <= h.sizeOfHeaders <= |image|
            && h.sizeOfHeaders < h.sizeOfImage && h.TableAt() + 40 * h.sections + 40 <= h.sizeOfImage
  {
    hide ImageRead;
    if h.sizeOfHeaders > 0 {
      ReadIsComplete(image, h.sizeOfHeaders - 1, 1);
    }
  }

  lemma CertExactly(image: seq<Byte>, h: Header)
    requires |image| < 0x1_0000_0000_0000_0000
    ensures CertOk(image, h) <==>
            (h.numRva > 4 && h.certSize > 0 ==> h.certAddress + h.certSize <= Min(|image|, 0xFFFF_FFFF))
  {
    hide ImageRead;
    if h.certAddress + h.certSize > 0 {
      ReadIsComplete(image, h.certAddress + h.certSize - 1, 1);
    }
  }

  lemma SectionsExactly(image: seq<Byte>, p: Parts, h: Header)
    requires |image| < 0x1_0000_0000_0000_0000 && Written(image, p) && SizesOk(image, h)
    requires h.TableAt() == p.TableAt() && h.sections == |p.sections|
    ensures SectionsOk(image, h.sizeOfHeaders, h.TableAt32(), h.sections) <==>
            forall s :: s in p.sections && s.sizeOfRawData > 0 ==>
              && h.sizeOfHeaders <= s.virtualAddress && h.sizeOfHeaders <= s.pointerToRawData
              && s.pointerToRawData + s.sizeOfRawData <= Min(|image|, 0xFFFF_FFFF)
  {
    hide Written, SizesOk, SectionOk, HeaderOf;
    forall i | 0 <= i < h.sections
      ensures var s := p.sections[i];
              SectionOk(image, h.sizeOfHeaders, HeaderOf(h.TableAt32(), i)) <==>
              (s.sizeOfRawData > 0 ==>
                 && h.sizeOfHeaders <= s.virtualAddress && h.sizeOfHeaders <= s.pointerToRawData
                 && s.pointerToRawData + s.sizeOfRawData <= Min(|image|, 0xFFFF_FFFF))
    {
      SectionExactly(image, p, h, i);
    }
  }

  lemma SectionExactly(image: seq<Byte>, p: Parts, h: Header, i: nat)
    requires Written(image, p) && SizesOk(image, h) && h.TableAt() == p.TableAt() && i < h.sections == |p.sections|
    ensures var s := p.sections[i];
            SectionOk(image, h.sizeOfHeaders, HeaderOf(h.TableAt32(), i)) <==>
            (s.sizeOfRawData > 0 ==>
               && h.sizeOfHeaders <= s.virtualAddress && h.sizeOfHeaders <= s.pointerToRawData
               && s.pointerToRawData + s.sizeOfRawData <= Min(|image|, 0xFFFF_FFFF))
  {
    hide ImageRead, SectionAt, Lies, BytesOfSections, BytesOfDos, BytesOfNt, SizesOk;
    var at := p.TableAt() + 40 * i;
    TableDoesNotWrap(image, h, i);
    TableReads(image, p, i);
    ReadIsComplete(image, at, 40);
    var s := Used(p.sections[i]);
    if s.pointer + s.size > 0 {
      ReadIsComplete(image, s.pointer + s.size - 1, 1);
    }
  }

  // ---- What is hashed ----

  /** The used fields of the sections with raw data, in table order. */
  function Hashed(ss: seq<SectionHeader>): (r: seq<Section>) {
    if ss == [] then []
    else
      var last := ss[|ss| - 1];
      Hashed(ss[..|ss| - 1]) + if last.sizeOfRawData > 0 then [Used(last)] else []
  }

  /** In the order of their data in the file, which does not start at the same place for any two. */
  predicate Ascending(order: seq<Section>) {
    forall i, j :: 0 <= i < j < |order| ==> order[i].pointer < order[j].pointer
  }

  function DataOf(image: seq<Byte>, order: seq<Section>): (b: seq<Byte>)
    requires forall s :: s in order ==> s.pointer + s.size <= |image|
  {
    if order == [] then []
    else
      var last := order[|order| - 1];
      DataOf(image, order[..|order| - 1]) + image[last.pointer..last.pointer + last.size]
  }

  lemma {:induction false} SameArrangement(a: seq<Section>, b: seq<Section>)
    requires Sorted(a) && Ascending(b) && multiset(a) == multiset(b)
    ensures a == b
    decreases |a|
  {
    hide Sorted, Ascending;
    assert |a| == |multiset(a)| == |multiset(b)| == |b|;
    if a != [] {
      var a0, b0, x := a[..|a| - 1], b[..|b| - 1], a[|a| - 1];
      SameLast(a, b);
      InitOf(a, b);
      SameArrangement(a0, b0);
    }
  }

  lemma InitOf(a: seq<Section>, b: seq<Section>)
    requires |a| == |b| > 0 && a[|a| - 1] == b[|b| - 1] && multiset(a) == multiset(b) && Sorted(a) && Ascending(b)
    ensures Sorted(a[..|a| - 1]) && Ascending(b[..|b| - 1]) && multiset(a[..|a| - 1]) == multiset(b[..|b| - 1])
  {
    hide Sorted;
    SortedInit(a);
    AscendingInit(b);
    var x := a[|a| - 1];
    assert multiset(a[..|a| - 1]) == multiset(a) - multiset{x} == multiset(b[..|b| - 1]);
  }

  lemma AscendingInit(t: seq<Section>)
    requires Ascending(t) && t != []
    ensures Ascending(t[..|t| - 1])
    ensures multiset(t) == multiset(t[..|t| - 1]) + multiset{t[|t| - 1]}
  {
    assert t == t[..|t| - 1] + [t[|t| - 1]];
  }

  /** The last section is in both the one whose data comes last. */
  lemma SameLast(a: seq<Section>, b: seq<Section>)
    requires |a| == |b| > 0 && Sorted(a) && Ascending(b) && multiset(a) == multiset(b)
    ensures a[|a| - 1] == b[|b| - 1]
  {
    var x, y := a[|a| - 1], b[|b| - 1];
    assert y in multiset(b) && x in multiset(a);
    assert y in multiset(a) && x in multiset(b);
    assert y in a && x in b;
    var i :| 0 <= i < |a| && a[i] == y;
    var j :| 0 <= j < |b| && b[j] == x;
  }

  lemma {:induction false} HashedIsNonEmpty(t: seq<Section>, ss: seq<SectionHeader>)
    requires |t| == |ss| && forall i :: 0 <= i < |ss| ==> t[i] == Used(ss[i])
    ensures NonEmpty(t) == Hashed(ss)
    decreases |t|
  {
    if t != [] {
      HashedIsNonEmpty(t[..|t| - 1], ss[..|ss| - 1]);
    }
  }

  lemma {:induction false} SizeOfNonEmpty(t: seq<Section>)
    ensures SizeSum(t) == SizeSum(NonEmpty(t))
    decreases |t|
  {
    if t != [] {
      var t0, last := t[..|t| - 1], t[|t| - 1];
      SizeOfNonEmpty(t0);
      if last.size > 0 {
        assert NonEmpty(t)[..|NonEmpty(t)| - 1] == NonEmpty(t0);
      } else {
        assert NonEmpty(t) == NonEmpty(t0);
      }
    }
  }

  lemma {:induction false} DataIsGathered(image: seq<Byte>, order: seq<Section>)
    requires forall s :: s in order ==> s.pointer + s.size <= |image| && s.size > 0
    ensures AllLegal(|image|, SectionRanges(order)) && Gather(image, SectionRanges(order)) == DataOf(image, order)
    decreases |order|
  {
    if order == [] {
      GatherEmpty(image);
    } else {
      var o0, last := order[..|order| - 1], order[|order| - 1];
      assert order == o0 + [last];
      DataIsGathered(image, o0);
      GatherPush(image, SectionRanges(o0), Range(last.pointer, last.size));
    }
  }

  lemma HeaderOfParts(image: seq<Byte>, p: Parts)
    requires Written(image, p) && Acceptable(image, p)
    ensures Addressable(image) && GetPeHeader(image) == Some(HeaderAt(image, p.At()))
    ensures var h, o := GetPeHeader(image).value, p.optional;
            && Sound(image, h) && h.off == p.At() && h.plus == o.Pe32Plus?
            && h.sizeOfHeaders == o.windows.sizeOfHeaders && h.TableAt() == p.TableAt()
            && h.sections == |p.sections| && (h.HasEntry() <==> o.numberOfRvaAndSizes > 4)
            && h.Cert() == if o.numberOfRvaAndSizes > 4 then o.directories[4].size else 0
  {
    hide BytesOfSections, BytesOfDos, BytesOfNt, HeaderAt, Lies, GetPeHeader, Sound, ReadU16, ReadU32;
    AcceptedExactly(image, p);
    AcceptedIsSound(image);
    HeaderReads(image, p.At(), p.signature, p.file, p.optional);
  }

  lemma TableIsArranged(image: seq<Byte>, p: Parts, h: Header, order: seq<Section>)
    requires Written(image, p) && Acceptable(image, p) && h.TableAt() == p.TableAt() && h.sections == |p.sections|
    requires Ascending(order) && multiset(order) == multiset(Hashed(p.sections))
    ensures h.TableAt() + 40 * h.sections <= |image|
    ensures SectionRanges(Sort(Table(image, h))) == SectionRanges(order)
    ensures SizeSum(Sort(Table(image, h))) == SizeSum(order)
    ensures forall s :: s in order ==> s.pointer + s.size <= |image| && s.size > 0
  {
    hide Sort, SectionRanges, SizeSum, SectionAt, BytesOfDos, BytesOfNt, BytesOfSections, Lies, NonEmpty, Hashed,
         Written;
    TableInside(image, p);
    var t := Table(image, h);
    forall i | 0 <= i < |t| ensures t[i] == Used(p.sections[i]) {
      TableReads(image, p, i);
    }
    HashedIsNonEmpty(t, p.sections);
    SkippingCommutes(t);
    SortSorts(NonEmpty(t));
    SameArrangement(Sort(NonEmpty(t)), order);
    RangesOfNonEmpty(Sort(t));
    SizeOfNonEmpty(Sort(t));
    HashedAre(p.sections);
    forall s | s in order ensures s.pointer + s.size <= |image| && s.size > 0 {
      assert s in multiset(order);
      assert s in multiset(Hashed(p.sections));
    }
  }

  lemma TableInside(image: seq<Byte>, p: Parts)
    requires Written(image, p)
    ensures p.TableAt() + 40 * |p.sections| <= |image|
  {
  }

  lemma {:induction false} HashedAre(ss: seq<SectionHeader>)
    ensures forall s :: s in Hashed(ss) ==> s.size > 0 && exists x :: x in ss && s == Used(x)
    decreases |ss|
  {
    if ss != [] {
      var s0, last := ss[..|ss| - 1], ss[|ss| - 1];
      assert ss == s0 + [last];
      HashedAre(s0);
    }
  }

  /** The measurement of an accepted image, part by part. */
  lemma MeasureUnfolds(image: seq<Byte>, h: Header, n: nat)
    requires Addressable(image) && GetPeHeader(image) == Some(h) && Sound(image, h) && n == Sum(image, h)
    requires AllLegal(|image|, HeaderRanges(h)) && AllLegal(|image|, SectionRanges(Sort(Table(image, h))))
    ensures var body := Gather(image, HeaderRanges(h)) + Gather(image, SectionRanges(Sort(Table(image, h))));
            Measure(image) == if |image| <= n then Some(body)
                              else if n + h.Cert() <= |image| then Some(body + image[n..|image| - h.Cert()])
                              else None
  {
    hide Sound, Sort, Table, Gather, SectionRanges, HeaderRanges, Sum, GetPeHeader, AllLegal, AllPlaced;
    if Measure(image).Some? {
      MeasureParts(image);
      assert forall b: seq<Byte> :: b + [] == b;
    }
  }

  /** The headers without the checksum and, if there is one, without the security directory. */
  function HeadersOf(image: seq<Byte>, checksum: nat, entry: nat, headers: nat, signs: bool): seq<Byte>
    requires checksum + 4 <= headers <= |image| && (signs ==> checksum + 4 <= entry && entry + 8 <= headers)
  {
    if signs then image[..checksum] + image[checksum + 4..entry] + image[entry + 8..headers]
    else image[..checksum] + image[checksum + 4..headers]
  }

  lemma HeaderParts(image: seq<Byte>, h: Header)
    requires |image| < 0x1_0000_0000_0000_0000 && Sound(image, h)
    ensures AllLegal(|image|, HeaderRanges(h))
    ensures var c, e, n := h.ChecksumAt(), h.EntryAt(), h.sizeOfHeaders;
            && c + 4 <= n <= |image| && (h.HasEntry() ==> c + 4 <= e && e + 8 <= n)
            && Gather(image, HeaderRanges(h)) == HeadersOf(image, c, e, n, h.HasEntry())
  {
    hide HeaderRanges, Gather, AllLegal;
    HeaderRangesAre(image, h);
    HeaderRangesLegal(image, h);
    HeaderBytes(image, h);
  }

  /** What is hashed of a written image whose sections begin at different places of the file: the headers
      without checksum and security directory, the sections in file order, and what is behind as many bytes
      as these have, without as many bytes as the certificates have. */
  lemma MeasuredExactly(image: seq<Byte>, p: Parts, order: seq<Section>)
    requires Written(image, p) && Acceptable(image, p)
    requires Ascending(order) && multiset(order) == multiset(Hashed(p.sections))
    ensures Addressable(image)
    ensures forall s :: s in order ==> s.pointer + s.size <= |image|
    ensures var checksum, headers := p.At() + 88, p.optional.windows.sizeOfHeaders;
            var entry := p.At() + if p.optional.Pe32Plus? then 168 else 152;
            var signs := p.optional.numberOfRvaAndSizes > 4;
            && checksum + 4 <= headers <= |image| && (signs ==> checksum + 4 <= entry && entry + 8 <= headers)
            && var cert, sum := if signs then p.optional.directories[4].size else 0, headers + SizeSum(order);
            var body := HeadersOf(image, checksum, entry, headers, signs) + DataOf(image, order);
            Measure(image) == if |image| <= sum then Some(body)
                              else if sum + cert <= |image| then Some(body + image[sum..|image| - cert])
                              else None
  {
    hide Written, Acceptable, Sound, Sort, Measure, HeaderRanges, SectionRanges, Gather, Table, SizeSum, HeaderAt,
         AllLegal, DataOf, HeadersOf, GetPeHeader, Ascending, Parts.At, Parts.TableAt, Parts.Ok, Hashed;
    HeaderOfParts(image, p);
    var h := GetPeHeader(image).value;
    HeaderParts(image, h);
    TableIsArranged(image, p, h, order);
    DataIsGathered(image, order);
    MeasureUnfolds(image, h, h.sizeOfHeaders + SizeSum(order));
  }
}
