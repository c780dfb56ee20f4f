/** Header reader: the MS-DOS stub, the PE signature, the COFF file header and the optional
    header, read from the file stream as `GetDllExportFunctions` reads them
    (PE/COFF specification, sections 3.2, 3.3, 3.4 and 3.4.3). */
module PeHeaders {
  import opened Results
  import opened Bytes
  import opened FileStreams

  const PeSignatureOffset := 0x3C
  const CoffHeaderSize := 0x14
  const SectionHeaderSize := 0x28
  const MachineI386 := 0x014C
  const MachineAmd64 := 0x8664
  const FileIsDll := 0x2000
  const Pe32PlusMagic := 0x020B
  const SizeOfImageOffset := 56
  /** Where the code starts reading data-directory fields in a PE32 optional header. */
  const DirectoryFieldsOffset := 92
  /** PE32+ lets an 8-byte ImageBase take the place of BaseOfData and the 4-byte ImageBase,
      and widens the four stack and heap size fields to eight bytes: 16 bytes more. */
  const Pe32PlusShift := 16

  datatype CoffHeader = CoffHeader(
    machine: uint16,
    numberOfSections: uint16,
    sizeOfOptionalHeader: uint16,
    characteristics: uint16)

  /** The COFF fields at offsets 0, 2, 16 and 18 of the 20-byte header. */
  function ParseCoff(bytes: seq<uint8>): CoffHeader
    requires |bytes| == CoffHeaderSize
  {
    CoffHeader(LeU16(bytes, 0), LeU16(bytes, 2), LeU16(bytes, 16), LeU16(bytes, 18))
  }

  predicate SupportedMachine(machine: uint16)
  {
    machine == MachineI386 || machine == MachineAmd64
  }

  /** `(Characteristics & IMAGE_FILE_DLL) != 0`: bit 13 is set. */
  predicate IsDll(characteristics: uint16)
  {
    characteristics / FileIsDll % 2 == 1
  }

  /** What the header reader hands to the image mapper and the export walker. */
  datatype Headers = Headers(
    coff: CoffHeader,
    magic: uint16,
    sizeOfImage: uint32,
    numberOfRvaAndSizes: uint32,
    exportRva: uint32,
    exportSize: uint32,
    sectionTable: seq<uint8>)
  {
    /** The optional header has the PE32+ layout. */
    predicate Is64()
    {
      magic == Pe32PlusMagic
    }
  }

  /** The header reader as the code runs it: each `fs.Read` fills a fresh buffer, reads
      never check how many bytes arrived, and `BitConverter` checks its index against the
      buffer it is given. */
  function ReadHeaders(file: seq<uint8>): (r: Result<Headers>)
    ensures |file| == 0 ==> r == Failure(EmptyFile)
    ensures r.Success? ==> SupportedMachine(r.value.coff.machine) && IsDll(r.value.coff.characteristics)
    ensures r.Success? ==>
              r.value.numberOfRvaAndSizes >= 1 && r.value.exportRva >= 1 && r.value.exportSize >= 1
    ensures r.Success? ==> |r.value.sectionTable| == SectionHeaderSize * r.value.coff.numberOfSections
  {
    if |file| == 0 then Failure(EmptyFile)
    else if AsciiDecode(Read(Stream(file, 0), 2).bytes) != "MZ" then Failure(NoDosStub)
    else
      var peOffset := Signed32(LeU32(Read(Stream(file, PeSignatureOffset), 4).bytes, 0));
      if peOffset < 0 then Failure(OutOfRange)   // a negative `fs.Position`
      else
        var signature := Read(Stream(file, peOffset), 4);
        if AsciiDecode(signature.bytes) != "PE\0\0" then Failure(NoPeSignature)
        else ReadCoffOnward(signature.rest)
  }

  /** The reader from the COFF header on, with the stream just past the signature. */
  function ReadCoffOnward(s: Stream): (r: Result<Headers>)
    ensures r.Success? ==> SupportedMachine(r.value.coff.machine) && IsDll(r.value.coff.characteristics)
    ensures r.Success? ==>
              r.value.numberOfRvaAndSizes >= 1 && r.value.exportRva >= 1 && r.value.exportSize >= 1
    ensures r.Success? ==> |r.value.sectionTable| == SectionHeaderSize * r.value.coff.numberOfSections
  {
    var coffChunk := Read(s, CoffHeaderSize);
    var coff := ParseCoff(coffChunk.bytes);
    if !SupportedMachine(coff.machine) then Failure(UnsupportedCpu(coff.machine))
    else if !IsDll(coff.characteristics) then Failure(NotADll)
    else
      var optional := Read(coffChunk.rest, coff.sizeOfOptionalHeader);
      DecodeOptional(coff, optional.bytes, optional.rest)
  }

  /** The fields taken from the optional header `optional`, then the section table read from `s`. */
  function DecodeOptional(coff: CoffHeader, optional: seq<uint8>, s: Stream): (r: Result<Headers>)
    ensures r.Success? <==> OptionalReadable(optional) && ExportEntryPresent(optional)
    ensures r.Success? ==>
              r.value == HeadersFrom(coff, optional, Read(s, SectionHeaderSize * coff.numberOfSections).bytes)
    ensures OptionalReadable(optional) && !ExportEntryPresent(optional) ==> r == Failure(NoExportTable)
    ensures !OptionalReadable(optional) ==> r == Failure(OutOfRange)
  {
    var magic :- ToUInt16(optional, 0);
    var offset := DirectoryFieldsOffset + (if magic == Pe32PlusMagic then Pe32PlusShift else 0);
    var sizeOfImage :- ToUInt32(optional, SizeOfImageOffset);
    var numberOfRvaAndSizes :- ToUInt32(optional, offset + 0);
    var exportRva :- ToUInt32(optional, offset + 4);
    var exportSize :- ToUInt32(optional, offset + 8);
    if numberOfRvaAndSizes < 1 || exportRva < 1 || exportSize < 1 then Failure(NoExportTable)
    else
      var sections := Read(s, SectionHeaderSize * coff.numberOfSections);
      Success(Headers(coff, magic, sizeOfImage, numberOfRvaAndSizes, exportRva, exportSize, sections.bytes))
  }

  // ---------------------------------------------------------------------------------------
  // The same headers described by fixed file offsets, independently of the stream.

  /** Offsets, within the optional header, of the fields the decoder uses
      (PE/COFF section 3.4: SizeOfImage, NumberOfRvaAndSizes, and data directory 0,
      the export table, as RVA and size). */
  datatype OptionalLayout = OptionalLayout(
    sizeOfImage: nat,
    numberOfRvaAndSizes: nat,
    exportTableRva: nat,
    exportTableSize: nat)

  const Pe32Layout := OptionalLayout(56, 92, 96, 100)
  const Pe32PlusLayout := OptionalLayout(56, 108, 112, 116)

  function LayoutFor(magic: uint16): OptionalLayout
  {
    if magic == Pe32PlusMagic then Pe32PlusLayout else Pe32Layout
  }

  /** The signed 32-bit file offset stored at 0x3C. */
  function PeOffset(file: seq<uint8>): int
  {
    Signed32(LeU32(Padded(file, PeSignatureOffset, 4), 0))
  }

  predicate HasDosStub(file: seq<uint8>)
  {
    |file| >= 2 && file[0] == 'M' as int && file[1] == 'Z' as int
  }

  predicate HasPeSignature(file: seq<uint8>, at: nat)
  {
    Padded(file, at, 4) == [0x50, 0x45, 0, 0]
  }

  predicate SignatureFound(file: seq<uint8>)
  {
    HasDosStub(file) && PeOffset(file) >= 0 && HasPeSignature(file, PeOffset(file))
  }

  /** The COFF header at file offset `at`. */
  function CoffAt(file: seq<uint8>, at: nat): CoffHeader
  {
    ParseCoff(Padded(file, at, CoffHeaderSize))
  }

  /** The optional header right after the COFF header at `at`, `SizeOfOptionalHeader` bytes long. */
  function OptionalHeaderAt(file: seq<uint8>, at: nat): seq<uint8>
  {
    Padded(file, at + CoffHeaderSize, CoffAt(file, at).sizeOfOptionalHeader)
  }

  /** The section table right after that optional header. */
  function SectionTableAt(file: seq<uint8>, at: nat): seq<uint8>
  {
    var coff := CoffAt(file, at);
    Padded(file, at + CoffHeaderSize + coff.sizeOfOptionalHeader, SectionHeaderSize * coff.numberOfSections)
  }

  /** The COFF header right after the signature. */
  function CoffOf(file: seq<uint8>): CoffHeader
    requires PeOffset(file) >= 0
  {
    CoffAt(file, PeOffset(file) + 4)
  }

  function OptionalHeaderOf(file: seq<uint8>): seq<uint8>
    requires PeOffset(file) >= 0
  {
    OptionalHeaderAt(file, PeOffset(file) + 4)
  }

  function SectionTableOf(file: seq<uint8>): seq<uint8>
    requires PeOffset(file) >= 0
  {
    SectionTableAt(file, PeOffset(file) + 4)
  }

  predicate CoffAccepted(file: seq<uint8>)
  {
    SignatureFound(file) && SupportedMachine(CoffOf(file).machine) && IsDll(CoffOf(file).characteristics)
  }

  /** The optional header is long enough for every field its layout names. */
  predicate OptionalReadable(optional: seq<uint8>)
  {
    2 <= |optional| && LayoutFor(LeU16(optional, 0)).exportTableSize + 4 <= |optional|
  }

  /** NumberOfRvaAndSizes, the export table RVA and its size are all nonzero. */
  predicate ExportEntryPresent(optional: seq<uint8>)
  {
    OptionalReadable(optional) &&
    var layout := LayoutFor(LeU16(optional, 0));
    LeU32(optional, layout.numberOfRvaAndSizes) >= 1 &&
    LeU32(optional, layout.exportTableRva) >= 1 &&
    LeU32(optional, layout.exportTableSize) >= 1
  }

  /** The headers, each optional-header field at its layout's offset. */
  function HeadersFrom(coff: CoffHeader, optional: seq<uint8>, sectionTable: seq<uint8>): Headers
    requires OptionalReadable(optional)
  {
    var magic := LeU16(optional, 0);
    var layout := LayoutFor(magic);
    Headers(coff, magic, LeU32(optional, layout.sizeOfImage),
            LeU32(optional, layout.numberOfRvaAndSizes), LeU32(optional, layout.exportTableRva),
            LeU32(optional, layout.exportTableSize), sectionTable)
  }

  predicate DirectoryReadable(file: seq<uint8>)
  {
    CoffAccepted(file) && OptionalReadable(OptionalHeaderOf(file))
  }

  predicate WellFormed(file: seq<uint8>)
  {
    CoffAccepted(file) && ExportEntryPresent(OptionalHeaderOf(file))
  }

  /** The headers of a well-formed file, read at fixed offsets. */
  function ExpectedHeaders(file: seq<uint8>): Headers
    requires WellFormed(file)
  {
    HeadersFrom(CoffOf(file), OptionalHeaderOf(file), SectionTableOf(file))
  }

  /** What the reader yields from a COFF header at file offset `at` on, by fixed offsets:
      the same checks in the same order as `ReadCoffOnward`. */
  function HeadersAt(file: seq<uint8>, at: nat): Result<Headers>
  {
    var coff := CoffAt(file, at);
    var optional := OptionalHeaderAt(file, at);
    if !SupportedMachine(coff.machine) then Failure(UnsupportedCpu(coff.machine))
    else if !IsDll(coff.characteristics) then Failure(NotADll)
    else if !OptionalReadable(optional) then Failure(OutOfRange)
    else if !ExportEntryPresent(optional) then Failure(NoExportTable)
    else Success(HeadersFrom(coff, optional, SectionTableAt(file, at)))
  }

  /** The reader's text comparison with "MZ" is a comparison of the first two file bytes. */
  lemma DosStubCheck(file: seq<uint8>)
    requires |file| > 0
    ensures AsciiDecode(Read(Stream(file, 0), 2).bytes) == "MZ" <==> HasDosStub(file)
  {
    var dos := Padded(file, 0, 2);
    AsciiDecodeMatches(dos, "MZ");
    assert dos[0] == ByteAt(file, 0) && dos[1] == ByteAt(file, 1);
  }

  /** The reader's text comparison with "PE\0\0" is a comparison of the four bytes at `at`,
      zero past the end of the file. */
  lemma PeSignatureCheck(file: seq<uint8>, at: nat)
    ensures AsciiDecode(Read(Stream(file, at), 4).bytes) == "PE\0\0" <==> HasPeSignature(file, at)
  {
    var sig := Padded(file, at, 4);
    AsciiDecodeMatches(sig, "PE\0\0");
    assert sig == [0x50, 0x45, 0, 0] <==>
           sig[0] == 'P' as int && sig[1] == 'E' as int && sig[2] == 0 && sig[3] == 0;
  }

  /** From a stream that tracks offset `at`, the COFF header, the optional header and the
      section table the stream delivers are the bytes at their fixed offsets, whether or not the
      file ends early. */
  lemma CoffOnwardLayout(s: Stream, at: nat)
    requires Tracks(s, at)
    ensures ReadCoffOnward(s) == HeadersAt(s.data, at)
  {
    ReadTracks(s, at, CoffHeaderSize);
    var coffChunk := Read(s, CoffHeaderSize);
    var coff := ParseCoff(coffChunk.bytes);
    assert coff == CoffAt(s.data, at);
    ReadTracks(coffChunk.rest, at + CoffHeaderSize, coff.sizeOfOptionalHeader);
    var optional := Read(coffChunk.rest, coff.sizeOfOptionalHeader);
    assert optional.bytes == OptionalHeaderAt(s.data, at);
    ReadTracks(optional.rest, at + CoffHeaderSize + coff.sizeOfOptionalHeader,
               SectionHeaderSize * coff.numberOfSections);
    assert Read(optional.rest, SectionHeaderSize * coff.numberOfSections).bytes == SectionTableAt(s.data, at);
  }

  /** Past the signature the reader reads the COFF header at the PE offset plus four. */
  lemma StreamLayout(file: seq<uint8>)
    requires PeOffset(file) >= 0
    ensures ReadCoffOnward(Read(Stream(file, PeOffset(file)), 4).rest) == HeadersAt(file, PeOffset(file) + 4)
  {
    ReadTracks(Stream(file, PeOffset(file)), PeOffset(file), 4);
    CoffOnwardLayout(Read(Stream(file, PeOffset(file)), 4).rest, PeOffset(file) + 4);
  }

  /** The reader by fixed file offsets: the same checks, in the same order, as `ReadHeaders`. */
  function HeadersOfFile(file: seq<uint8>): Result<Headers>
  {
    if |file| == 0 then Failure(EmptyFile)
    else if !HasDosStub(file) then Failure(NoDosStub)
    else if PeOffset(file) < 0 then Failure(OutOfRange)
    else if !HasPeSignature(file, PeOffset(file)) then Failure(NoPeSignature)
    else HeadersAt(file, PeOffset(file) + 4)
  }

  /** The reader, which follows a stream position through its reads, reads every header at
      its fixed offset in the file. */
  lemma ReadHeadersLayout(file: seq<uint8>)
    ensures ReadHeaders(file) == HeadersOfFile(file)
  {
    if |file| > 0 {
      DosStubCheck(file);
    }
    if PeOffset(file) >= 0 {
      PeSignatureCheck(file, PeOffset(file));
      StreamLayout(file);
    }
  }

  /** The reader accepts exactly the well-formed files, and then returns the fields at the
      offsets of the PE32 or PE32+ layout its magic selects. */
  lemma ReadHeadersAccepts(file: seq<uint8>)
    ensures ReadHeaders(file).Success? <==> WellFormed(file)
    ensures WellFormed(file) ==> ReadHeaders(file) == Success(ExpectedHeaders(file))
  {
    ReadHeadersLayout(file);
  }

  /** Which error each failed check produces, in the order the code makes the checks. */
  lemma ReadHeadersRejects(file: seq<uint8>)
    ensures |file| > 0 && !HasDosStub(file) ==> ReadHeaders(file) == Failure(NoDosStub)
    ensures HasDosStub(file) && PeOffset(file) < 0 ==> ReadHeaders(file) == Failure(OutOfRange)
    ensures HasDosStub(file) && PeOffset(file) >= 0 && !HasPeSignature(file, PeOffset(file)) ==>
              ReadHeaders(file) == Failure(NoPeSignature)
    ensures SignatureFound(file) && !SupportedMachine(CoffOf(file).machine) ==>
              ReadHeaders(file) == Failure(UnsupportedCpu(CoffOf(file).machine))
    ensures SignatureFound(file) && SupportedMachine(CoffOf(file).machine) && !IsDll(CoffOf(file).characteristics) ==>
              ReadHeaders(file) == Failure(NotADll)
    ensures CoffAccepted(file) && !DirectoryReadable(file) ==> ReadHeaders(file) == Failure(OutOfRange)
    ensures DirectoryReadable(file) && !ExportEntryPresent(OptionalHeaderOf(file)) ==> ReadHeaders(file) == Failure(NoExportTable)
  {
    ReadHeadersLayout(file);
  }
}
