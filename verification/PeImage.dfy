/** Header validation of PE32 and PE32+ images, and what acceptance guarantees to the hashing code. */
module PeImage {
  import opened Words

  /** The number of bytes Tcg2DxeImageRead copies for a request of n bytes, or None for an error. */
  function ImageRead(image: seq<Byte>, at: UInt64, n: UInt64): (copied: Option<nat>)
    requires |image| < 0x1_0000_0000_0000_0000
  {
    if 0xFFFF_FFFF_FFFF_FFFF - at < n then None
    else if at >= |image| then Some(0)
    else if at + n > |image| then Some((|image| - at) % 0x1_0000_0000)
    else Some(n)
  }

  /** A read is complete exactly when the requested range lies in the image. */
  lemma ReadIsComplete(image: seq<Byte>, at: UInt64, n: UInt64)
    requires |image| < 0x1_0000_0000_0000_0000 && n > 0
    ensures ImageRead(image, at, n) == Some(n) <==> at + n <= |image|
  {
    if at < |image| < at + n {
      var rest := |image| - at;
      assert rest % 0x1_0000_0000 <= rest < n;
    }
  }

  predicate Reads(image: seq<Byte>, at: UInt64, n: UInt64)
    requires |image| < 0x1_0000_0000_0000_0000
  {
    ImageRead(image, at, n) == Some(n)
  }

  /** The image header fields that validation and hashing use. `off` is where the PE header starts. */
  datatype Header = Header(
    off: UInt32, plus: bool, machine: UInt16, sections: UInt16, optSize: UInt16,
    sizeOfImage: UInt32, sizeOfHeaders: UInt32, numRva: UInt32, certAddress: UInt32, certSize: UInt32)
  {
    function ChecksumAt(): nat { off as nat + 88 }

    /** Offset of the security data directory entry. */
    function EntryAt(): nat { off as nat + if plus then 168 else 152 }

    function HasEntry(): bool { numRva > 4 }

    /** Length of the optional header without its data directories. */
    function Fixed(): nat { if plus then 112 else 96 }

    /** Where the section table starts, and the 32-bit value the validator computes for it. */
    function TableAt(): nat { off as nat + 24 + optSize }
    function TableAt32(): UInt32 { TableAt() % 0x1_0000_0000 }

    /** CertSize as the hashing code determines it. */
    function Cert(): UInt32 { if HasEntry() then certSize else 0 }
  }

  function HeaderOffset(image: seq<Byte>): UInt32
    requires |image| >= 64
  {
    if ReadU16(image, 0) == 0x5A4D then ReadU32(image, 60) else 0
  }

  /** The header at `off`, with the offsets of PE32 or PE32+ as its magic says. */
  function HeaderAt(image: seq<Byte>, off: UInt32): (h: Header)
    requires off + 264 <= |image|
  {
    var plus := ReadU16(image, off + 24) != 0x10B;
    var rva: nat := if plus then 132 else 116;
    var entry: nat := if plus then 168 else 152;
    Header(off, plus, ReadU16(image, off + 4), ReadU16(image, off + 6), ReadU16(image, off + 20),
           ReadU32(image, off + 80), ReadU32(image, off + 84), ReadU32(image, off + rva),
           ReadU32(image, off + entry), ReadU32(image, off + entry + 4))
  }

  /** Steps 1 to 4 of the validation, in the order of the source. */
  predicate SizesOk(image: seq<Byte>, h: Header)
    requires |image| < 0x1_0000_0000_0000_0000
  {
    && h.numRva <= 16
    && (h.optSize - h.Fixed()) % 0x1_0000_0000 == h.numRva * 8
    && h.sizeOfImage > h.TableAt32()
    && (h.sizeOfImage - h.TableAt32()) / 40 > h.sections
    && h.sizeOfHeaders > h.TableAt32()
    && h.sizeOfHeaders < h.sizeOfImage
    && (h.sizeOfHeaders - h.TableAt32()) / 40 >= h.sections
    && Reads(image, h.sizeOfHeaders - 1, 1)
  }

  /** The security directory, when it has an entry and is not empty, ends inside the image. */
  predicate CertOk(image: seq<Byte>, h: Header)
    requires |image| < 0x1_0000_0000_0000_0000
  {
    h.HasEntry() && h.certSize != 0 ==>
      && 0xFFFF_FFFF - h.certAddress >= h.certSize
      && Reads(image, h.certAddress + h.certSize - 1, 1)
  }

  predicate MachineOk(machine: UInt16) {
    machine == 0x014C || machine == 0x8664 || machine == 0x0EBC || machine == 0xAA64
  }

  /** The fields of a section header that are used. */
  datatype Section = Section(address: UInt32, size: UInt32, pointer: UInt32)

  function SectionAt(image: seq<Byte>, at: nat): Section
    requires at + 40 <= |image|
  {
    Section(ReadU32(image, at + 12), ReadU32(image, at + 16), ReadU32(image, at + 20))
  }

  predicate SectionOk(image: seq<Byte>, sizeOfHeaders: UInt32, at: UInt32)
    requires |image| < 0x1_0000_0000_0000_0000
  {
    && Reads(image, at, 40)
    && var s := (ReadIsComplete(image, at, 40); SectionAt(image, at));
    && (s.size > 0 ==>
          && s.address >= sizeOfHeaders
          && s.pointer >= sizeOfHeaders
          && 0xFFFF_FFFF - s.pointer >= s.size
          && Reads(image, s.pointer + s.size - 1, 1))
  }

  /** The offset, a 32-bit variable, of the i-th section header. */
  function HeaderOf(table: UInt32, i: nat): UInt32 {
    (table + 40 * i) % 0x1_0000_0000
  }

  predicate SectionsOk(image: seq<Byte>, sizeOfHeaders: UInt32, table: UInt32, n: nat)
    requires |image| < 0x1_0000_0000_0000_0000
  {
    forall i :: 0 <= i < n ==> SectionOk(image, sizeOfHeaders, HeaderOf(table, i))
  }

  /** The header at the place the DOS header says, when signature and magic are those of a PE image. */
  function PeFields(image: seq<Byte>): (h: Option<Header>)
    requires |image| < 0x1_0000_0000_0000_0000
    ensures h.Some? ==> |image| >= 64 && h.value.off == HeaderOffset(image)
                        && h.value.off + 264 <= |image| && h.value == HeaderAt(image, h.value.off)
  {
    ReadIsComplete(image, 0, 64);
    if !Reads(image, 0, 64) then None
    else
      var off := HeaderOffset(image);
      ReadIsComplete(image, off, 264);
      if !Reads(image, off, 264) then None
      else if ReadU32(image, off) != 0x4550 then None
      else if ReadU16(image, off + 24) != 0x10B && ReadU16(image, off + 24) != 0x20B then None
      else Some(HeaderAt(image, off))
  }

  predicate Valid(image: seq<Byte>, h: Header)
    requires |image| < 0x1_0000_0000_0000_0000
  {
    && SizesOk(image, h)
    && CertOk(image, h)
    && MachineOk(h.machine)
    && SectionsOk(image, h.sizeOfHeaders, h.TableAt32(), h.sections)
  }

  /** The header of an accepted image. */
  function GetPeHeader(image: seq<Byte>): (h: Option<Header>)
    requires |image| < 0x1_0000_0000_0000_0000
  {
    var h := PeFields(image);
    if h.Some? && Valid(image, h.value) then h else None
  }

  /** Everything the hashing code relies on: its headers, its table and its sections are in the
      image, and the lengths it computes by subtraction are not negative. */
  ghost predicate Sound(image: seq<Byte>, h: Header) {
    && h.TableAt() == h.TableAt32()
    && h.TableAt() + 40 * h.sections <= h.sizeOfHeaders <= |image|
    && h.ChecksumAt() + 4 <= h.TableAt()
    && (h.HasEntry() ==> h.ChecksumAt() + 4 <= h.EntryAt() <= h.EntryAt() + 8 <= h.TableAt())
    && (forall i :: 0 <= i < h.sections ==> EntryPlaced(image, h, i))
    && (h.HasEntry() && h.certSize > 0 ==> h.certAddress + h.certSize <= |image|)
  }

  /** A nonempty section's data lies in the image, behind the headers. */
  predicate Placed(image: seq<Byte>, h: Header, s: Section) {
    s.size > 0 ==> h.sizeOfHeaders <= s.pointer && s.pointer + s.size <= |image|
  }

  predicate EntryPlaced(image: seq<Byte>, h: Header, i: nat) {
    && h.TableAt() + 40 * i + 40 <= |image|
    && Placed(image, h, SectionAt(image, h.TableAt() + 40 * i))
  }

  lemma OptionalHeaderSize(h: Header)
    requires h.numRva <= 16 && (h.optSize - h.Fixed()) % 0x1_0000_0000 == h.numRva * 8
    ensures h.optSize == h.Fixed() + 8 * h.numRva
  {
  }

  /** Where the section table starts below 4 GiB, no 32-bit offset of a section header wraps. */
  lemma TableDoesNotWrap(image: seq<Byte>, h: Header, i: nat)
    requires |image| < 0x1_0000_0000_0000_0000 && h.TableAt() < 0x1_0000_0000
    requires SizesOk(image, h) && i < h.sections
    ensures h.TableAt32() == h.TableAt()
    ensures HeaderOf(h.TableAt32(), i) == h.TableAt() + 40 * i
    ensures h.TableAt() + 40 * i + 40 <= h.sizeOfHeaders <= |image|
  {
    ReadIsComplete(image, h.sizeOfHeaders - 1, 1);
  }

  /** Acceptance makes every range used later legal, exactly when the section table starts below
      4 GiB; so it does for every image below 4 GiB. */
  lemma AcceptedIsSound(image: seq<Byte>)
    requires |image| < 0x1_0000_0000_0000_0000 && GetPeHeader(image).Some?
    ensures var h := GetPeHeader(image).value;
            && (Sound(image, h) <==> h.TableAt() < 0x1_0000_0000)
            && (|image| < 0x1_0000_0000 ==> Sound(image, h))
  {
    hide SectionsOk, SectionOk, EntryPlaced, HeaderAt, HeaderOffset, ImageRead, MachineOk;
    var h := GetPeHeader(image).value;
    OptionalHeaderSize(h);
    ReadIsComplete(image, h.sizeOfHeaders - 1, 1);
    if h.HasEntry() && h.certSize > 0 {
      ReadIsComplete(image, h.certAddress + h.certSize - 1, 1);
    }
    if h.TableAt() < 0x1_0000_0000 {
      forall i | 0 <= i < h.sections
        ensures EntryPlaced(image, h, i)
      {
        SectionIsSound(image, h, i);
      }
    }
  }

  /** The section table of an accepted image starts below 4 GiB. Every image below 4 GiB is such. */
  predicate Addressable(image: seq<Byte>) {
    && |image| < 0x1_0000_0000_0000_0000
    && (GetPeHeader(image).Some? ==> GetPeHeader(image).value.TableAt() < 0x1_0000_0000)
  }

  lemma SmallIsAddressable(image: seq<Byte>)
    requires |image| < 0x1_0000_0000
    ensures Addressable(image)
  {
    if GetPeHeader(image).Some? {
      AcceptedIsSound(image);
    }
  }

  lemma SectionIsSound(image: seq<Byte>, h: Header, i: nat)
    requires |image| < 0x1_0000_0000_0000_0000 && h.TableAt() < 0x1_0000_0000
    requires SizesOk(image, h) && i < h.sections
    requires SectionsOk(image, h.sizeOfHeaders, h.TableAt32(), h.sections)
    ensures EntryPlaced(image, h, i)
  {
    hide ImageRead;
    TableDoesNotWrap(image, h, i);
    assert SectionOk(image, h.sizeOfHeaders, HeaderOf(h.TableAt32(), i));
    var s := SectionAt(image, h.TableAt() + 40 * i);
    if s.size > 0 {
      ReadIsComplete(image, s.pointer + s.size - 1, 1);
    }
  }

  /** The image context the validator fills in. */
  class ImageContext {
    var peCoffHeaderOffset: UInt32
    var machine: UInt16
    var imageSize: UInt64
    var sizeOfHeaders: UInt32

    constructor ()
      ensures peCoffHeaderOffset == 0 && machine == 0 && imageSize == 0 && sizeOfHeaders == 0
    {
      peCoffHeaderOffset, machine, imageSize, sizeOfHeaders := 0, 0, 0, 0;
    }

    /** Accepts exactly the images that GetPeHeader accepts, and then records their fields. */
    method LoadPeHeader(image: seq<Byte>) returns (ok: bool)
      requires |image| < 0x1_0000_0000_0000_0000
      modifies this
      ensures ok <==> GetPeHeader(image).Some?
      ensures ok ==> var h := GetPeHeader(image).value;
                     peCoffHeaderOffset == h.off && machine == h.machine
                     && imageSize == h.sizeOfImage && sizeOfHeaders == h.sizeOfHeaders
    {
      hide SectionsOk, SizesOk, CertOk, MachineOk, HeaderAt, ReadU16, ReadU32, ImageRead;
      peCoffHeaderOffset := 0;
      ReadIsComplete(image, 0, 64);
      if !Reads(image, 0, 64) {
        return false;
      }
      if ReadU16(image, 0) == 0x5A4D {
        peCoffHeaderOffset := ReadU32(image, 60);
      }
      ReadIsComplete(image, peCoffHeaderOffset, 264);
      if !Reads(image, peCoffHeaderOffset, 264)
        || ReadU32(image, peCoffHeaderOffset) != 0x4550
        || (ReadU16(image, peCoffHeaderOffset + 24) != 0x10B && ReadU16(image, peCoffHeaderOffset + 24) != 0x20B)
      {
        return false;
      }
      var h := HeaderAt(image, peCoffHeaderOffset);
      machine := h.machine;
      if !SizesOk(image, h) || !CertOk(image, h) {
        return false;
      }
      imageSize, sizeOfHeaders := h.sizeOfImage, h.sizeOfHeaders;
      if !MachineOk(machine) {
        return false;
      }
      ok := CheckSections(image, sizeOfHeaders, h.TableAt32(), h.sections);
    }
  }

  /** The validator's loop over the section headers. */
  method CheckSections(image: seq<Byte>, sizeOfHeaders: UInt32, table: UInt32, n: UInt16) returns (ok: bool)
    requires |image| < 0x1_0000_0000_0000_0000
    ensures ok <==> SectionsOk(image, sizeOfHeaders, table, n)
  {
    hide SectionOk;
    var at: UInt32 := table;
    NextHeader(at, 0);
    var index: nat := 0;
    while index < n
      invariant 0 <= index <= n && at == HeaderOf(table, index)
      invariant SectionsOk(image, sizeOfHeaders, table, index)
    {
      if !SectionOk(image, sizeOfHeaders, at) {
        return false;
      }
      NextHeader(table, index);
      at := (at + 40) % 0x1_0000_0000;
      index := index + 1;
    }
    return true;
  }

  lemma NextHeader(table: UInt32, i: nat)
    ensures HeaderOf(table, 0) == table
    ensures HeaderOf(table, i + 1) == (HeaderOf(table, i) + 40) % 0x1_0000_0000
  {
    hide HeaderOf;
    HeaderIs(table, 0, table);
    HeaderIs(table, i, table + 40 * i);
    HeaderIs(table, i + 1, table + 40 * i + 40);
    NextAt(table + 40 * i);
  }

  lemma HeaderIs(table: UInt32, i: nat, x: nat)
    requires x == table + 40 * i
    ensures HeaderOf(table, i) == x % 0x1_0000_0000
  {
  }

  lemma NextAt(x: nat)
    ensures (x + 40) % 0x1_0000_0000 == (x % 0x1_0000_0000 + 40) % 0x1_0000_0000
  {
    var m, q, r := 0x1_0000_0000, x / 0x1_0000_0000, x % 0x1_0000_0000;
    if r + 40 < m {
      DivModUnique(x + 40, m, q, r + 40);
    } else {
      DivModUnique(x + 40, m, q + 1, r + 40 - m);
      DivModUnique(r + 40, m, 1, r + 40 - m);
    }
  }
}
