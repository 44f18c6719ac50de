/** Concrete images at which the properties of the measurement stop to hold. */
module PeExamples {
  import opened Words
  import opened PeImage
  import opened PeSort
  import opened PeMeasure
  import opened PeSigning

  /** The bytes of a PE32 header for an i386 image: number of sections, size of the optional header, and
      number of directory entries as given, SizeOfImage 0x200 and SizeOfHeaders 0x100. */
  function HeaderByte(i: nat, sections: Byte, optSize: Byte, numRva: Byte): Byte {
    if i == 0 then 0x50 else if i == 1 then 0x45
    else if i == 4 then 0x4C else if i == 5 then 0x01
    else if i == 6 then sections
    else if i == 20 then optSize
    else if i == 24 then 0x0B else if i == 25 then 0x01
    else if i == 81 then 2
    else if i == 85 then 1
    else if i == 116 then numRva
    else 0
  }

  // ---- A section table behind 4 GiB ----

  function WrapByte(i: nat): Byte {
    if i == 0 then 0x4D else if i == 1 then 0x5A
    else if i == 60 then 0xF0 else if 61 <= i <= 63 then 0xFF
    else if i < 0xFFFF_FFF0 then 0
    else HeaderByte(i - 0xFFFF_FFF0, 0, 96, 0)
  }

  /** An image whose PE header starts at 0xFFFFFFF0, without sections and directory entries. */
  function WrapImage(): (image: seq<Byte>)
    ensures |image| == 0x1_0000_00F8
  {
    seq(0x1_0000_00F8, i requires 0 <= i < 0x1_0000_00F8 => WrapByte(i))
  }

  lemma WrapHeader()
    ensures PeFields(WrapImage())
            == Some(Header(0xFFFF_FFF0, false, 0x14C, 0, 96, 0x200, 0x100, 0, 0, 0))
  {
    hide ImageRead, WrapImage;
    var image, off := WrapImage(), 0xFFFF_FFF0;
    WrapWords();
    ReadIsComplete(image, 0, 64);
    ReadIsComplete(image, off, 264);
  }

  lemma WrapWords()
    ensures var image, off := WrapImage(), 0xFFFF_FFF0;
            && HeaderOffset(image) == off && ReadU32(image, off) == 0x4550 && ReadU16(image, off + 24) == 0x10B
            && HeaderAt(image, off) == Header(off, false, 0x14C, 0, 96, 0x200, 0x100, 0, 0, 0)
  {
  }

  /** The validator accepts this image, because the 32-bit offset of its section table wraps around;
      then the length of the headers behind the checksum wraps as well. */
  lemma WrapIsUnsound()
    ensures var header := GetPeHeader(WrapImage());
            && header.Some? && !Addressable(WrapImage())
            && !Sound(WrapImage(), header.value)
            && !AllLegal(|WrapImage()|, HeaderRanges(header.value))
  {
    hide ImageRead, PeFields, WrapImage, Sound;
    WrapHeader();
    var image, h := WrapImage(), Header(0xFFFF_FFF0, false, 0x14C, 0, 96, 0x200, 0x100, 0, 0, 0);
    ReadIsComplete(image, 0xFF, 1);
    assert h.TableAt32() == 0x68;
    assert GetPeHeader(image) == Some(h);
    AcceptedIsSound(image);
    assert HeaderRanges(h)[1] == Range(0x1_0000_004C, Minus64(0x100, 0x1_0000_004C));
    assert !Legal(|image|, HeaderRanges(h)[1]);
  }

  // ---- Sections that overlap ----

  function OverlapByte(i: nat): Byte {
    if i < 160 then HeaderByte(i, 2, 136, 5)
    else if i == 173 || i == 181 || i == 213 || i == 221 then 1
    else if i == 176 || i == 216 then 8
    else 0
  }

  /** An image of 264 bytes with two sections, both of which are its last 8 bytes. */
  function OverlapImage(): (image: seq<Byte>)
    ensures |image| == 264
  {
    seq(264, i requires 0 <= i < 264 => OverlapByte(i))
  }

  /** The same with 16 bytes of certificates, entered in the directory. */
  function OverlapSigned(): (signed: seq<Byte>)
    ensures |signed| == 280
  {
    seq(280, i requires 0 <= i < 280 =>
      if i == 152 then 8 else if i == 153 then 1 else if i == 156 then 16 else if i < 264 then OverlapByte(i) else 0)
  }

  function OverlapHeader(): Header {
    Header(0, false, 0x14C, 2, 136, 0x200, 0x100, 5, 0, 0)
  }

  lemma OverlapWords()
    ensures var image := OverlapImage();
            && HeaderOffset(image) == 0 && ReadU32(image, 0) == 0x4550 && ReadU16(image, 24) == 0x10B
            && HeaderAt(image, 0) == OverlapHeader()
            && SectionAt(image, 160) == Section(0x100, 8, 0x100) && SectionAt(image, 200) == Section(0x100, 8, 0x100)
    ensures ReadU32(OverlapSigned(), 152) == 264 && ReadU32(OverlapSigned(), 156) == 16
    ensures Kept(OverlapImage(), OverlapSigned(), OverlapHeader())
  {
  }

  lemma OverlapAccepted()
    ensures GetPeHeader(OverlapImage()) == Some(OverlapHeader())
    ensures Table(OverlapImage(), OverlapHeader()) == [Section(0x100, 8, 0x100), Section(0x100, 8, 0x100)]
  {
    hide ImageRead, OverlapImage, HeaderAt, SectionAt, ReadU16, ReadU32, OverlapSigned;
    var image, h := OverlapImage(), OverlapHeader();
    OverlapWords();
    ReadIsComplete(image, 0, 64);
    ReadIsComplete(image, 0, 264);
    ReadIsComplete(image, 0xFF, 1);
    ReadIsComplete(image, 160, 40);
    ReadIsComplete(image, 200, 40);
    ReadIsComplete(image, 263, 1);
    assert h.TableAt32() == 160;
    assert SectionOk(image, 0x100, 160) && SectionOk(image, 0x100, 200);
    assert HeaderOf(160, 0) == 160 && HeaderOf(160, 1) == 200;
    assert SectionsOk(image, 0x100, 160, 2) by {
      forall i | 0 <= i < 2 ensures SectionOk(image, 0x100, HeaderOf(160, i)) {
        assert i == 0 || i == 1;
      }
    }
    assert PeFields(image) == Some(h);
  }

  lemma OverlapSum()
    ensures SizeSum(Sort([Section(0x100, 8, 0x100), Section(0x100, 8, 0x100)])) == 16
  {
    var s := Section(0x100, 8, 0x100);
    assert [s, s][..1] == [s] && [s][..0] == [];
    assert Sort([s]) == [s];
    assert Sort([s, s]) == [s, s];
    assert SizeSum([s]) == 8;
  }

  /** The sections add up to 272 bytes, more than the unsigned file and less than the signed one: the
      former is measured and the latter rejected. */
  lemma SigningRejectsOverlap()
    ensures Addressable(OverlapImage()) && Addressable(OverlapSigned())
    ensures Measure(OverlapImage()).Some? && Measure(OverlapSigned()).None?
  {
    hide ImageRead, OverlapImage, OverlapSigned, ReadU32, Sort, Gather, Kept, Sound, GetPeHeader, PeFields,
         SectionAt, SizeSum;
    var image, signed, h := OverlapImage(), OverlapSigned(), OverlapHeader();
    OverlapWords();
    OverlapAccepted();
    OverlapSum();
    SmallIsAddressable(image);
    SmallIsAddressable(signed);
    AcceptedIsSound(image);
    SigningKeepsMeasure(image, signed);
  }
}
