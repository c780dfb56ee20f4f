/** Image mapper: a zeroed buffer of `SizeOfImage` bytes into which every section's raw data is
    read at its virtual address, in section-table order (PE/COFF specification, section 4). */
module ImageMapper {
  import opened Results
  import opened Bytes
  import opened FileStreams
  import opened PeHeaders

  /** The longest byte array the .NET runtime allocates; `new byte[n]` beyond it throws. */
  const MaxByteArrayLength := 0x7FFF_FFC7

  /** The three section-header fields the mapper uses, each read as a signed `int`. */
  datatype Section = Section(virtualAddress: int, sizeOfRawData: int, pointerToRawData: int)

  /** The section header that starts at byte `off` of the table: fields at +12, +16 and +20. */
  function SectionAt(table: seq<uint8>, off: int): (r: Result<Section>)
    ensures r.Success? <==> 0 <= off + 12 && off + 24 <= |table|
  {
    var virtualAddress :- ToInt32(table, off + 12);
    var sizeOfRawData :- ToInt32(table, off + 16);
    var pointerToRawData :- ToInt32(table, off + 20);
    Success(Section(virtualAddress, sizeOfRawData, pointerToRawData))
  }

  /** Section number `i` of the table. */
  function SectionNo(table: seq<uint8>, i: nat): Result<Section>
  {
    SectionAt(table, SectionHeaderSize * i)
  }

  /** No field is negative and the raw data fits in an image of `imageLength` bytes at the
      section's virtual address: what `fs.Position = ...` and `Stream.Read` check. */
  predicate Fits(s: Section, imageLength: nat)
  {
    s.pointerToRawData >= 0 && s.virtualAddress >= 0 && s.sizeOfRawData >= 0 &&
    s.virtualAddress + s.sizeOfRawData <= imageLength
  }

  predicate SectionFits(table: seq<uint8>, i: nat, imageLength: nat)
  {
    SectionNo(table, i).Success? && Fits(SectionNo(table, i).value, imageLength)
  }

  /** One iteration of the mapping loop: seek to the raw data, then read it into the image at
      the virtual address. Only the bytes the file still has are copied. */
  function CopySection(file: seq<uint8>, image: seq<uint8>, s: Section): (r: Result<seq<uint8>>)
    ensures r.Success? <==> Fits(s, |image|)
    ensures r.Failure? ==> r.error == OutOfRange
    ensures r.Success? ==> |r.value| == |image|
  {
    if s.pointerToRawData < 0 then Failure(OutOfRange)    // fs.Position = PointerToRawData
    else if s.virtualAddress < 0 || s.sizeOfRawData < 0 || |image| - s.virtualAddress < s.sizeOfRawData then
      Failure(OutOfRange)                                 // Stream.Read argument checks
    else
      Success(Overwrite(image, s.virtualAddress, Supplied(file, s.pointerToRawData, s.sizeOfRawData)))
  }

  /** `blank` after the first `k` sections of the table have been read into it, in order. */
  function MapSections(file: seq<uint8>, table: seq<uint8>, k: nat, blank: seq<uint8>): (r: Result<seq<uint8>>)
    ensures r.Success? ==> |r.value| == |blank|
  {
    if k == 0 then Success(blank)
    else
      var image :- MapSections(file, table, k - 1, blank);
      var section :- SectionNo(table, k - 1);
      CopySection(file, image, section)
  }

  /** The mapped image: the allocation, then every section of the table. */
  function MappedImage(file: seq<uint8>, h: Headers): (r: Result<seq<uint8>>)
    ensures r.Success? ==> |r.value| == h.sizeOfImage
  {
    if h.sizeOfImage > MaxByteArrayLength then Failure(ImageTooLarge)
    else MapSections(file, h.sectionTable, h.coff.numberOfSections, Zeros(h.sizeOfImage))
  }

  /** The mapping loop over a zero-filled array of `SizeOfImage` bytes. */
  method MapImage(file: seq<uint8>, h: Headers) returns (r: Result<array<uint8>>)
    ensures r.Success? ==> fresh(r.value)
    ensures MappedImage(file, h) == if r.Success? then Success(r.value[..]) else Failure(r.error)
  {
    if h.sizeOfImage > MaxByteArrayLength {
      return Failure(ImageTooLarge);
    }
    var image := new uint8[h.sizeOfImage](_ => 0);
    assert image[..] == Zeros(h.sizeOfImage);
    var off := 0;
    var i := 0;
    while i < h.coff.numberOfSections
      invariant 0 <= i <= h.coff.numberOfSections
      invariant off == SectionHeaderSize * i
      invariant MapSections(file, h.sectionTable, i, Zeros(h.sizeOfImage)) == Success(image[..])
    {
      var section := SectionAt(h.sectionTable, off);
      ghost var before := image[..];
      MapStep(file, h.sectionTable, i, Zeros(h.sizeOfImage), before);
      if section.Failure? {
        MapSectionsFails(file, h.sectionTable, i + 1, h.coff.numberOfSections, Zeros(h.sizeOfImage));
        return Failure(section.error);
      }
      var copied := CopySectionInto(file, image, section.value);
      if copied.Failure? {
        MapSectionsFails(file, h.sectionTable, i + 1, h.coff.numberOfSections, Zeros(h.sizeOfImage));
        return Failure(copied.error);
      }
      off := off + SectionHeaderSize;
      i := i + 1;
    }
    return Success(image);
  }

  /** The loop body for one section: `fs.Position = PointerToRawData`, then `fs.Read` into
      the image at the virtual address. */
  method CopySectionInto(file: seq<uint8>, image: array<uint8>, s: Section) returns (r: Result<()>)
    modifies image
    ensures CopySection(file, old(image[..]), s) == if r.Success? then Success(image[..]) else Failure(r.error)
  {
    if s.pointerToRawData < 0 {
      return Failure(OutOfRange);
    }
    var read := ReadInto(file, s.pointerToRawData, image, s.virtualAddress, s.sizeOfRawData);
    if read.Failure? {
      return Failure(read.error);
    }
    return Success(());
  }

  /** One more section: read its header, then copy it into the image mapped so far. */
  lemma MapStep(file: seq<uint8>, table: seq<uint8>, i: nat, blank: seq<uint8>, image: seq<uint8>)
    requires MapSections(file, table, i, blank) == Success(image)
    ensures MapSections(file, table, i + 1, blank) ==
              match SectionNo(table, i)
              case Failure(e) => Failure(e)
              case Success(s) => CopySection(file, image, s)
  {
  }

  /** Once a section fails, the mapping fails with that error however many sections follow. */
  lemma {:induction false} MapSectionsFails(file: seq<uint8>, table: seq<uint8>, k: nat, m: nat, blank: seq<uint8>)
    requires k <= m
    requires MapSections(file, table, k, blank).Failure?
    ensures MapSections(file, table, m, blank) == MapSections(file, table, k, blank)
    decreases m
  {
    if k < m {
      MapSectionsFails(file, table, k, m - 1, blank);
    }
  }

  // ---------------------------------------------------------------------------------------
  // Properties of the mapping

  /** Mapping succeeds exactly when every section header can be read and every section fits. */
  lemma {:induction false} MapSectionsSucceeds(file: seq<uint8>, table: seq<uint8>, k: nat, blank: seq<uint8>)
    ensures MapSections(file, table, k, blank).Success? <==>
              forall i :: 0 <= i < k ==> SectionFits(table, i, |blank|)
  {
    if k > 0 {
      MapSectionsSucceeds(file, table, k - 1, blank);
      var before := MapSections(file, table, k - 1, blank);
      if before.Success? {
        if SectionNo(table, k - 1).Success? {
          var s := SectionNo(table, k - 1).value;
          assert MapSections(file, table, k, blank) == CopySection(file, before.value, s);
          assert |before.value| == |blank|;
          assert SectionFits(table, k - 1, |blank|) <==> Fits(s, |blank|);
        } else {
          assert !SectionFits(table, k - 1, |blank|);
        }
      }
      assert (forall i :: 0 <= i < k ==> SectionFits(table, i, |blank|)) <==>
             (forall i :: 0 <= i < k - 1 ==> SectionFits(table, i, |blank|)) && SectionFits(table, k - 1, |blank|);
    }
  }

  /** Section `i` wrote image byte `j`: the byte lies in the part of its raw data the file has. */
  predicate Writes(file: seq<uint8>, table: seq<uint8>, i: nat, j: int)
  {
    SectionNo(table, i).Success? && Covers(file, SectionNo(table, i).value, j)
  }

  /** Reading section `s` put a file byte at image offset `j`. */
  predicate Covers(file: seq<uint8>, s: Section, j: int)
  {
    s.pointerToRawData >= 0 && s.sizeOfRawData >= 0 && s.virtualAddress >= 0 &&
    s.virtualAddress <= j < s.virtualAddress + Available(|file|, s.pointerToRawData, s.sizeOfRawData)
  }

  /** The file byte that section `i` puts at image offset `j`. */
  function SourceByte(file: seq<uint8>, table: seq<uint8>, i: nat, j: int): uint8
    requires Writes(file, table, i, j)
  {
    var s := SectionNo(table, i).value;
    file[s.pointerToRawData + j - s.virtualAddress]
  }

  /** The last of the first `k` sections that wrote image byte `j`, or -1 when none did. */
  function LastWriter(file: seq<uint8>, table: seq<uint8>, k: nat, j: int): (w: int)
    ensures -1 <= w < k
    ensures w == -1 <==> forall i :: 0 <= i < k ==> !Writes(file, table, i, j)
    ensures w >= 0 ==> Writes(file, table, w, j) && forall i :: w < i < k ==> !Writes(file, table, i, j)
  {
    if k == 0 then -1
    else if Writes(file, table, k - 1, j) then k - 1
    else LastWriter(file, table, k - 1, j)
  }

  /** After copying one section, an image byte is the file byte the section put there, or
      the byte the image already had. */
  lemma CopiedByte(file: seq<uint8>, image: seq<uint8>, s: Section, j: nat)
    requires CopySection(file, image, s).Success?
    requires j < |image|
    ensures CopySection(file, image, s).value[j] ==
              if Covers(file, s, j) then file[s.pointerToRawData + j - s.virtualAddress] else image[j]
  {
    var src := Supplied(file, s.pointerToRawData, s.sizeOfRawData);
    assert CopySection(file, image, s).value == Overwrite(image, s.virtualAddress, src);
  }

  /** Each image byte comes from the last section that wrote it, or is the blank's byte when
      no section did: later sections overwrite earlier ones. */
  lemma {:induction false} MappedByte(file: seq<uint8>, table: seq<uint8>, k: nat, blank: seq<uint8>, j: nat)
    requires MapSections(file, table, k, blank).Success?
    requires j < |blank|
    ensures var w := LastWriter(file, table, k, j);
            MapSections(file, table, k, blank).value[j] ==
              if w == -1 then blank[j] else SourceByte(file, table, w, j)
  {
    if k > 0 {
      var before := MapSections(file, table, k - 1, blank).value;
      var s := SectionNo(table, k - 1).value;
      assert MapSections(file, table, k, blank) == CopySection(file, before, s);
      MappedByte(file, table, k - 1, blank, j);
      CopiedByte(file, before, s, j);
      assert Writes(file, table, k - 1, j) == Covers(file, s, j);
    }
  }

  /** Where each byte of the mapped image comes from: the last section that wrote it, or zero
      where no section did. */
  lemma MappedImageBytes(file: seq<uint8>, h: Headers, j: nat)
    requires MappedImage(file, h).Success? && j < h.sizeOfImage
    ensures var w := LastWriter(file, h.sectionTable, h.coff.numberOfSections, j);
            MappedImage(file, h).value[j] == if w == -1 then 0 else SourceByte(file, h.sectionTable, w, j)
  {
    MappedByte(file, h.sectionTable, h.coff.numberOfSections, Zeros(h.sizeOfImage), j);
  }

  /** The image can be built exactly when it is not too large to allocate and every section
      fits in it; sections are never truncated. */
  lemma MappedImageSucceeds(file: seq<uint8>, h: Headers)
    requires |h.sectionTable| == SectionHeaderSize * h.coff.numberOfSections
    ensures forall i :: 0 <= i < h.coff.numberOfSections ==> SectionNo(h.sectionTable, i).Success?
    ensures MappedImage(file, h).Success? <==>
              h.sizeOfImage <= MaxByteArrayLength &&
              forall i :: 0 <= i < h.coff.numberOfSections ==> SectionFits(h.sectionTable, i, h.sizeOfImage)
  {
    MapSectionsSucceeds(file, h.sectionTable, h.coff.numberOfSections, Zeros(h.sizeOfImage));
    assert |Zeros(h.sizeOfImage)| == h.sizeOfImage;
    forall i | 0 <= i < h.coff.numberOfSections ensures SectionNo(h.sectionTable, i).Success? {
      assert SectionHeaderSize * i + SectionHeaderSize <= SectionHeaderSize * h.coff.numberOfSections;
    }
  }
}
