/** `DllExportList.GetDllExportFunctions`: the header reader, the image mapper and the export
    walker run one after the other on the bytes of a file; the first stage that fails decides
    the error. */
module DllExports {
  import opened Results
  import opened Bytes
  import opened Strings
  import PeHeaders
  import ImageMapper
  import FileStreams
  import opened ExportWalker

  /** The export list of the file `file`, or the error that ends the decoding. */
  function Decode(file: seq<uint8>): Result<DllExportList>
  {
    var h :- PeHeaders.ReadHeaders(file);
    var image :- ImageMapper.MappedImage(file, h);
    ExportsOf(image, h)
  }

  /** The decoder: headers from the file, the image mapped into a fresh array, then the walk
      over that array. The file's contents stand for the opened `FileStream`. */
  method GetDllExportFunctions(file: seq<uint8>) returns (r: Result<DllExportList>)
    ensures r == Decode(file)
  {
    var h :- PeHeaders.ReadHeaders(file);
    var image :- ImageMapper.MapImage(file, h);
    r := WalkExports(image, h);
  }

  /** A file the header reader rejects is rejected with the reader's error, in the order the
      code checks: empty file, missing "MZ", negative PE offset, missing "PE\0\0", machine,
      DLL flag, short optional header, missing export directory entry. */
  lemma DecodeRejects(file: seq<uint8>)
    ensures |file| == 0 ==> Decode(file) == Failure(EmptyFile)
    ensures |file| > 0 && !PeHeaders.HasDosStub(file) ==> Decode(file) == Failure(NoDosStub)
    ensures PeHeaders.HasDosStub(file) && PeHeaders.PeOffset(file) < 0 ==> Decode(file) == Failure(OutOfRange)
    ensures PeHeaders.HasDosStub(file) && PeHeaders.PeOffset(file) >= 0 &&
            !PeHeaders.HasPeSignature(file, PeHeaders.PeOffset(file)) ==>
              Decode(file) == Failure(NoPeSignature)
    ensures PeHeaders.SignatureFound(file) && !PeHeaders.SupportedMachine(PeHeaders.CoffOf(file).machine) ==>
              Decode(file) == Failure(UnsupportedCpu(PeHeaders.CoffOf(file).machine))
    ensures PeHeaders.SignatureFound(file) && PeHeaders.SupportedMachine(PeHeaders.CoffOf(file).machine) &&
            !PeHeaders.IsDll(PeHeaders.CoffOf(file).characteristics) ==>
              Decode(file) == Failure(NotADll)
    ensures PeHeaders.CoffAccepted(file) && !PeHeaders.DirectoryReadable(file) ==> Decode(file) == Failure(OutOfRange)
    ensures PeHeaders.DirectoryReadable(file) && !PeHeaders.ExportEntryPresent(PeHeaders.OptionalHeaderOf(file)) ==>
              Decode(file) == Failure(NoExportTable)
  {
    PeHeaders.ReadHeadersRejects(file);
  }

  /** Past the headers, an image too large to allocate is rejected, and every other failure
      of the mapper or the walker is a read out of range. */
  lemma DecodeLaterErrors(file: seq<uint8>)
    requires PeHeaders.WellFormed(file)
    ensures PeHeaders.ExpectedHeaders(file).sizeOfImage > ImageMapper.MaxByteArrayLength ==>
              Decode(file) == Failure(ImageTooLarge)
    ensures PeHeaders.ExpectedHeaders(file).sizeOfImage <= ImageMapper.MaxByteArrayLength && Decode(file).Failure? ==>
              Decode(file).error == OutOfRange
  {
    PeHeaders.ReadHeadersAccepts(file);
    var h := PeHeaders.ExpectedHeaders(file);
    if h.sizeOfImage <= ImageMapper.MaxByteArrayLength && ImageMapper.MappedImage(file, h).Failure? {
      MappedImageErrors(file, h);
    }
  }

  /** Once the image can be allocated, mapping fails only on a read out of range. */
  lemma MappedImageErrors(file: seq<uint8>, h: PeHeaders.Headers)
    requires h.sizeOfImage <= ImageMapper.MaxByteArrayLength
    ensures ImageMapper.MappedImage(file, h).Failure? ==> ImageMapper.MappedImage(file, h).error == OutOfRange
  {
    MapSectionsErrors(file, h.sectionTable, h.coff.numberOfSections, FileStreams.Zeros(h.sizeOfImage));
  }

  /** Every failure of the mapping loop is a read out of range. */
  lemma {:induction false} MapSectionsErrors(file: seq<uint8>, table: seq<uint8>, k: nat, blank: seq<uint8>)
    ensures ImageMapper.MapSections(file, table, k, blank).Failure? ==>
              ImageMapper.MapSections(file, table, k, blank).error == OutOfRange
  {
    if k > 0 {
      MapSectionsErrors(file, table, k - 1, blank);
    }
  }

  /** What a successful decoding means: the file is well formed, `x64` is set exactly for
      the PE32+ layout and `x86` otherwise, the module name is the text at the module name
      pointer of the mapped image, and the `Functions` array holds one entry per exported
      function, entry `i` read through name pointer `i` and ordinal `i`. */
  lemma DecodeSucceeds(file: seq<uint8>)
    ensures Decode(file).Success? ==> PeHeaders.WellFormed(file)
    ensures Decode(file).Success? ==>
      var h := PeHeaders.ExpectedHeaders(file);
      var list := Decode(file).value;
      (list.x64 <==> h.magic == PeHeaders.Pe32PlusMagic) && list.x86 == !list.x64 &&
      ImageMapper.MappedImage(file, h).Success? &&
      var image := ImageMapper.MappedImage(file, h).value;
      ReadDirectory(image, h.exportRva).Success? &&
      var d := ReadDirectory(image, h.exportRva).value;
      list.moduleNamePtr == d.moduleNamePtr && list.moduleName == Terminated(image, d.moduleNamePtr) &&
      list.ordinalBase == d.ordinalBase && list.functionsCount == d.functionsCount &&
      list.namesCount == d.namesCount &&
      |list.functions| == list.functionsCount &&
      forall i :: 0 <= i < |list.functions| ==> Entry(image, TablesOf(h, d), i) == Success(list.functions[i])
  {
    if Decode(file).Success? {
      PeHeaders.ReadHeadersAccepts(file);
      var h := PeHeaders.ExpectedHeaders(file);
      var image := ImageMapper.MappedImage(file, h).value;
      var d := ReadDirectory(image, h.exportRva).value;
      EntriesResult(image, TablesOf(h, d), d.functionsCount);
    }
  }
}
