/** Signing an image does not change what is hashed. */
module PeSigning {
  import opened Words
  import opened PeImage
  import opened PeSort
  import opened PeMeasure

  /** What signing changes: the checksum, the security directory entry and appended bytes. */
  predicate Kept(image: seq<Byte>, signed: seq<Byte>, h: Header) {
    && |image| <= |signed|
    && forall i :: 0 <= i < |image| && !InChecksum(h, i) && !InEntry(h, i) ==> image[i] == signed[i]
  }

  predicate InChecksum(h: Header, i: int) { h.ChecksumAt() <= i < h.ChecksumAt() + 4 }
  predicate InEntry(h: Header, i: int) { h.EntryAt() <= i < h.EntryAt() + 8 }

  /** The header of the signed image. */
  function SignedHeader(signed: seq<Byte>, h: Header): Header
    requires h.off + 264 <= |signed|
  {
    h.(certAddress := ReadU32(signed, h.EntryAt()), certSize := ReadU32(signed, h.EntryAt() + 4))
  }

  /** A part of the image that avoids both fields. */
  predicate Avoids(h: Header, at: nat, n: nat) {
    && (at + n <= h.ChecksumAt() || h.ChecksumAt() + 4 <= at)
    && (at + n <= h.EntryAt() || h.EntryAt() + 8 <= at)
  }

  lemma KeptPart(image: seq<Byte>, signed: seq<Byte>, h: Header, at: nat, n: nat)
    requires Kept(image, signed, h) && Avoids(h, at, n) && at + n <= |image|
    ensures image[at..at + n] == signed[at..at + n]
    ensures forall i :: at <= i < at + n ==> image[i] == signed[i]
  {
    forall i | at <= i < at + n ensures image[i] == signed[i] {
      assert !InChecksum(h, i) && !InEntry(h, i);
    }
  }

  lemma Kept16(image: seq<Byte>, signed: seq<Byte>, h: Header, at: nat)
    requires Kept(image, signed, h) && Avoids(h, at, 2) && at + 2 <= |image|
    ensures ReadU16(image, at) == ReadU16(signed, at)
  {
    KeptPart(image, signed, h, at, 2);
  }

  lemma Kept32(image: seq<Byte>, signed: seq<Byte>, h: Header, at: nat)
    requires Kept(image, signed, h) && Avoids(h, at, 4) && at + 4 <= |image|
    ensures ReadU32(image, at) == ReadU32(signed, at)
  {
    KeptPart(image, signed, h, at, 4);
  }

  lemma SameOffset(image: seq<Byte>, signed: seq<Byte>, h: Header)
    requires |image| >= 64 && Kept(image, signed, h)
    ensures HeaderOffset(image) == HeaderOffset(signed)
  {
    hide ReadU16, ReadU32, Kept;
    Kept16(image, signed, h, 0);
    Kept32(image, signed, h, 60);
  }

  lemma SameHeader(image: seq<Byte>, signed: seq<Byte>, h: Header)
    requires h.off + 264 <= |image| && HeaderAt(image, h.off) == h && Kept(image, signed, h)
    ensures HeaderAt(signed, h.off) == SignedHeader(signed, h)
    ensures ReadU32(image, h.off) == ReadU32(signed, h.off)
    ensures ReadU16(image, h.off + 24) == ReadU16(signed, h.off + 24)
  {
    hide ReadU16, ReadU32, Kept;
    Kept32(image, signed, h, h.off);
    Kept16(image, signed, h, h.off + 24);
    Kept16(image, signed, h, h.off + 4);
    Kept16(image, signed, h, h.off + 6);
    Kept16(image, signed, h, h.off + 20);
    Kept32(image, signed, h, h.off + 80);
    Kept32(image, signed, h, h.off + 84);
    Kept32(image, signed, h, h.off + if h.plus then 132 else 116);
  }

  lemma SameFields(image: seq<Byte>, signed: seq<Byte>, h: Header)
    requires |image| <= |signed| < 0x1_0000_0000_0000_0000 && PeFields(image) == Some(h) && Kept(image, signed, h)
    ensures PeFields(signed) == Some(SignedHeader(signed, h))
  {
    hide Kept, HeaderAt, HeaderOffset, ImageRead, ReadU16, ReadU32;
    SameOffset(image, signed, h);
    SameHeader(image, signed, h);
    ReadIsComplete(image, 0, 64);
    ReadIsComplete(signed, 0, 64);
    ReadIsComplete(image, h.off, 264);
    ReadIsComplete(signed, h.off, 264);
  }

  lemma SameSection(image: seq<Byte>, signed: seq<Byte>, h: Header, at: nat)
    requires Kept(image, signed, h) && h.EntryAt() + 8 <= at && at + 40 <= |image|
    ensures SectionAt(image, at) == SectionAt(signed, at)
  {
    hide ReadU32, Kept;
    Kept32(image, signed, h, at + 12);
    Kept32(image, signed, h, at + 16);
    Kept32(image, signed, h, at + 20);
  }

  /** The signed image passes every check that the unsigned image passed. */
  lemma SameSections(image: seq<Byte>, signed: seq<Byte>, h: Header)
    requires |image| <= |signed| < 0x1_0000_0000_0000_0000 && GetPeHeader(image) == Some(h)
    requires h.HasEntry() && h.TableAt() < 0x1_0000_0000
    requires Kept(image, signed, h)
    ensures SectionsOk(signed, h.sizeOfHeaders, h.TableAt32(), h.sections)
    ensures Sound(image, h) && h.TableAt() + 40 * h.sections <= |image|
    ensures Table(image, h) == Table(signed, h)
  {
    hide Kept, HeaderAt, PeFields, CertOk, SizesOk, SectionAt, SectionOk, EntryPlaced;
    AcceptedIsSound(image);
    FieldsInside(image);
    forall i | 0 <= i < h.sections
      ensures SectionOk(signed, h.sizeOfHeaders, HeaderOf(h.TableAt32(), i))
      ensures h.TableAt() + 40 * i + 40 <= |image|
      ensures SectionAt(image, h.TableAt() + 40 * i) == SectionAt(signed, h.TableAt() + 40 * i)
    {
      assert SectionOk(image, h.sizeOfHeaders, HeaderOf(h.TableAt32(), i));
      SameSectionHeader(image, signed, h, i);
    }
  }

  lemma SameSectionHeader(image: seq<Byte>, signed: seq<Byte>, h: Header, i: nat)
    requires |image| <= |signed| < 0x1_0000_0000_0000_0000 && h.TableAt() < 0x1_0000_0000
    requires SizesOk(image, h) && i < h.sections && h.HasEntry() && Kept(image, signed, h)
    requires SectionOk(image, h.sizeOfHeaders, HeaderOf(h.TableAt32(), i))
    ensures SectionOk(signed, h.sizeOfHeaders, HeaderOf(h.TableAt32(), i))
    ensures h.TableAt() + 40 * i + 40 <= |image|
    ensures SectionAt(image, h.TableAt() + 40 * i) == SectionAt(signed, h.TableAt() + 40 * i)
  {
    hide Kept, SectionAt, SectionOk, ImageRead;
    OptionalHeaderSize(h);
    TableDoesNotWrap(image, h, i);
    SameSection(image, signed, h, h.TableAt() + 40 * i);
    SectionStaysOk(image, signed, h.sizeOfHeaders, h.TableAt() + 40 * i);
  }

  lemma FieldsInside(image: seq<Byte>)
    requires |image| < 0x1_0000_0000_0000_0000 && GetPeHeader(image).Some?
    ensures GetPeHeader(image).value.off + 264 <= |image|
  {
  }

  lemma SectionStaysOk(image: seq<Byte>, signed: seq<Byte>, sizeOfHeaders: UInt32, at: UInt32)
    requires |image| <= |signed| < 0x1_0000_0000_0000_0000 && at + 40 <= |image|
    requires SectionAt(image, at) == SectionAt(signed, at) && SectionOk(image, sizeOfHeaders, at)
    ensures SectionOk(signed, sizeOfHeaders, at)
  {
    hide ImageRead, SectionAt;
    ReadIsComplete(signed, at, 40);
    var s := SectionAt(image, at);
    if s.size > 0 {
      ReadIsComplete(image, s.pointer + s.size - 1, 1);
      ReadIsComplete(signed, s.pointer + s.size - 1, 1);
    }
  }

  lemma SameSizes(image: seq<Byte>, signed: seq<Byte>, h: Header)
    requires |image| <= |signed| < 0x1_0000_0000_0000_0000 && h.off + 264 <= |image| && SizesOk(image, h)
    ensures SizesOk(signed, SignedHeader(signed, h))
  {
    hide ImageRead;
    ReadIsComplete(image, h.sizeOfHeaders - 1, 1);
    ReadIsComplete(signed, h.sizeOfHeaders - 1, 1);
  }

  /** The signed image is accepted exactly when its certificates end inside it. */
  lemma SignedHeaderAccepted(image: seq<Byte>, signed: seq<Byte>, h: Header)
    requires |image| <= |signed| < 0x1_0000_0000_0000_0000 && GetPeHeader(image) == Some(h)
    requires h.HasEntry() && h.TableAt() < 0x1_0000_0000
    requires Kept(image, signed, h)
    ensures h.off + 264 <= |image| <= |signed|
    ensures var h' := SignedHeader(signed, h);
            GetPeHeader(signed) == if CertOk(signed, h') then Some(h') else None
  {
    hide PeFields, SizesOk, CertOk, SectionsOk;
    FieldsInside(image);
    SameFields(image, signed, h);
    SameSections(image, signed, h);
    SameSizes(image, signed, h);
  }

  /** The same ranges are hashed, unless a section sum past the unsigned file now lies in the file. */
  lemma SameRanges(image: seq<Byte>, signed: seq<Byte>, h: Header)
    requires |image| <= |signed| < 0x1_0000_0000_0000_0000 && GetPeHeader(image) == Some(h)
    requires h.HasEntry() && h.TableAt() < 0x1_0000_0000
    requires Kept(image, signed, h) && h.certSize == 0 && h.off + 264 <= |image|
    requires ReadU32(signed, h.EntryAt() + 4) == |signed| - |image|
    ensures var h' := SignedHeader(signed, h);
            && h'.TableAt() + 40 * h'.sections <= |image| <= |signed|
            && Ranges(image, h).Some?
            && Ranges(signed, h') == if |image| < Sum(image, h) < |signed| then None else Ranges(image, h)
  {
    hide Kept, Table, Sort, SizeSum, SectionRanges, ReadU32;
    SameSections(image, signed, h);
    var h' := SignedHeader(signed, h);
    TableOfSigned(signed, h);
    assert HeaderRanges(h') == HeaderRanges(h);
  }

  lemma TableOfSigned(signed: seq<Byte>, h: Header)
    requires h.off + 264 <= |signed| && h.TableAt() + 40 * h.sections <= |signed|
    ensures Table(signed, SignedHeader(signed, h)) == Table(signed, h)
  {
  }

  /** No hashed range touches what signing changes. */
  lemma RangesAvoid(image: seq<Byte>, signed: seq<Byte>, h: Header)
    requires |image| <= |signed| && |image| < 0x1_0000_0000_0000_0000
    requires Sound(image, h) && h.HasEntry() && Kept(image, signed, h)
    requires Ranges(image, h).Some?
    ensures forall i :: 0 <= i < |Ranges(image, h).value| ==> SameIn(image, signed, Ranges(image, h).value[i])
  {
    hide Kept, Sort, Table, SizeSum, SectionRanges, HeaderRanges, EntryPlaced;
    RangesAreLegal(image, h);
    var rs, t := Ranges(image, h).value, Sort(Table(image, h));
    SortedArePlaced(image, h);
    SectionRangesBehind(image, h, t);
    HeaderRangesAvoid(image, h);
    forall i | 0 <= i < |rs| ensures SameIn(image, signed, rs[i]) {
      assert Legal(|image|, rs[i]);
      assert Avoids(h, rs[i].start, rs[i].len);
      KeptPart(image, signed, h, rs[i].start, rs[i].len);
    }
  }

  lemma HeaderRangesAvoid(image: seq<Byte>, h: Header)
    requires |image| < 0x1_0000_0000_0000_0000 && Sound(image, h) && h.HasEntry()
    ensures forall i :: 0 <= i < |HeaderRanges(h)| ==> Avoids(h, HeaderRanges(h)[i].start, HeaderRanges(h)[i].len)
    ensures h.ChecksumAt() + 4 <= h.EntryAt() && h.EntryAt() + 8 <= h.sizeOfHeaders
  {
    hide HeaderRanges, Sound;
    HeaderRangesAre(image, h);
  }

  lemma {:induction false} SectionRangesBehind(image: seq<Byte>, h: Header, t: seq<Section>)
    requires AllPlaced(image, h, t)
    ensures forall i :: 0 <= i < |SectionRanges(t)| ==> SectionRanges(t)[i].start >= h.sizeOfHeaders
  {
    if t != [] {
      assert t == t[..|t| - 1] + [t[|t| - 1]];
      SectionRangesBehind(image, h, t[..|t| - 1]);
      assert Placed(image, h, t[|t| - 1]);
    }
  }

  /** Signing invariance. For a measured image without certificates, append certificates, enter
      their size and change the checksum: the digest input stays the same, and the signed image is
      rejected exactly when its directory entry points outside it or when its sections add up to
      more than the unsigned file but less than the signed one. */
  lemma SigningKeepsMeasure(image: seq<Byte>, signed: seq<Byte>)
    requires |image| <= |signed| < 0x1_0000_0000_0000_0000 && Addressable(image) && Measure(image).Some?
    requires var h := GetPeHeader(image).value;
             && h.HasEntry() && h.certSize == 0 && Kept(image, signed, h)
             && h.off + 264 <= |image|
             && ReadU32(signed, h.EntryAt() + 4) == |signed| - |image|
    ensures Addressable(signed)
    ensures var h := GetPeHeader(image).value;
            && Sound(image, h)
            && Measure(signed) ==
               if CertOk(signed, SignedHeader(signed, h)) && !(|image| < Sum(image, h) < |signed|)
               then Measure(image) else None
  {
    hide Kept, Sum, Ranges, CertOk, Gather, GetPeHeader, ReadU32, Sound;
    var h := GetPeHeader(image).value;
    AcceptedIsSound(image);
    SignedHeaderAccepted(image, signed, h);
    SameRanges(image, signed, h);
    if GetPeHeader(signed).Some? {
      AcceptedIsSound(signed);
      if Ranges(signed, SignedHeader(signed, h)).Some? {
        RangesAreLegal(image, h);
        RangesAreLegal(signed, SignedHeader(signed, h));
        RangesAvoid(image, signed, h);
        GatherAgrees(image, signed, Ranges(image, h).value);
      }
    }
  }
}
