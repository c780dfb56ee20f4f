# DllExportList export-table decoder, modelled in Dafny

`DllExportList.GetDllExportFunctions` reads a Windows DLL from raw bytes and returns its
export list. The list holds the module name, the ordinal base, the function and name counts,
the `x86`/`x64` flags, and one `ExportFunction` per entry of the export address table. Each
entry carries a name, an entry point, an ordinal and an address. The decoder is a pipeline of
three stages, and the first stage that fails decides the error:

1. **Header reader** (`PeHeaders`). It checks the `MZ` stub and follows the signed offset at
   0x3C to the `PE\0\0` signature. It then reads the COFF header and checks the machine type
   and the DLL flag. From the optional header it takes the magic, `SizeOfImage`,
   `NumberOfRvaAndSizes` and the export table's RVA and size. Finally it reads the section
   table. As section 3.4 of the PE/COFF specification lays them out, `NumberOfRvaAndSizes`
   sits at optional-header offset 92 (PE32) or 108 (PE32+), and the export table's RVA and
   size 4 and 8 bytes further on.
2. **Image mapper** (`ImageMapper`). It allocates a zeroed array of `SizeOfImage` bytes. For
   each 40-byte section header it seeks to `PointerToRawData` and reads `SizeOfRawData` bytes
   into the array at `VirtualAddress`.
3. **Export walker** (`ExportWalker`). It reads the Export Directory Table at the export RVA,
   then the module name. Its loop fills the `Functions` array while two cursors step through
   the name pointer table and the ordinal table. Each ordinal index selects an address in the
   export address table.
   - A forwarder's entry point is the text at its address.
   - Any other entry point is `0x` followed by eight upper-case hexadecimal digits.

Supporting modules:
- `Results`: the error datatype.
- `Bytes`: C# integer conversions, `BitConverter` reads and ASCII decoding.
- `FileStreams`: the file as a byte sequence plus a position, with `Stream.Read` semantics.
- `Strings`: `BytesToStr` and `X8` hexadecimal formatting.
- `DllExports`: ties the three stages together.

The header reader is a specification function on values: the stream position is threaded
through its reads. The mapper, the walker and `BytesToStr` are each a specification function
paired with a method that does what the code does in place:
- `MapImage` fills a fresh array.
- `WalkExports` and `FillEntries` fill the `Functions` array and advance the `uint` cursors.
- `BytesToStr` scans with a `while` loop.

Every method is proved equal to its function. Lemmas then state what the functions mean:
- which file each check accepts and which error each rejection produces;
- where each byte of the mapped image comes from;
- which table slots entry `i` is read from;
- the form of the entry point;
- that the loop result holds the entries in table order.

C# arithmetic is modelled exactly:
- `uint` sums wrap modulo 2^32 (`Wrap32`).
- `(int)` casts of `uint` values become negative from 2^31 up (`Signed32`).
- `int` sums wrap (`Unchecked`).
- A negative index fails like any other out-of-range read.

Where the code departs from the PE/COFF specification or from what a reader of it might
expect, the model follows the code:
- The forwarder test is strict at both ends: `ExportAddr < Address < ExportAddr + ExportSize`,
  with the sum wrapped to 32 bits.
- A read past the end of the file is not an error. The header reader's fresh buffers keep
  zeros, and the mapper's `Stream.Read` copies only the bytes the file has.
- A section that overflows the image fails through `Stream.Read`'s argument check, reported
  as `OutOfRange`.
- A missing export table is reported as an error (`NoExportTable`), as the code throws.
- The name pointer table is read for all `FunctionsCount` entries, not only `NamesCount`.

## Model

| member | source | states |
|---|---|---|
| Bytes.Signed32 | DLLExportList.cs:178-186 | the `(int)` cast of a `uint` is negative exactly from 2^31 up, is the value itself below, and wraps back to the value |
| Bytes.Unchecked | DLLExportList.cs:195 | unchecked `int` addition yields a signed 32-bit value congruent to the exact sum modulo 2^32 |
| Bytes.WrapAdd | DLLExportList.cs:199-200 | wrapping an intermediate `uint` sum does not change the wrapped final sum |
| Bytes.LeU32OfLeBytes32 | DLLExportList.cs:136 | the little-endian 32-bit read inverts the little-endian encoding |
| Bytes.ToUInt16 | DLLExportList.cs:126-129 | `BitConverter.ToUInt16` succeeds exactly when two bytes lie at a non-negative index; it fails with `OutOfRange` otherwise |
| Bytes.ToUInt32 | DLLExportList.cs:136-141 | `BitConverter.ToUInt32` succeeds exactly when four bytes lie at a non-negative index; it fails with `OutOfRange` otherwise |
| Bytes.ToInt32 | DLLExportList.cs:120 | `BitConverter.ToInt32` has the same range check and yields a signed 32-bit value |
| Bytes.AsciiDecodeMatches | DLLExportList.cs:116 | comparing the ASCII decoding with a literal such as "MZ" or "PE\0\0" is comparing the raw bytes with its codes, in both directions |
| FileStreams.Available | DLLExportList.cs:156 | a read delivers at most the requested count, and falls short only at the end of the file |
| FileStreams.Supplied | DLLExportList.cs:156 | the delivered bytes are the file bytes from the position on |
| FileStreams.Overwrite | DLLExportList.cs:156 | writing into the buffer changes exactly the bytes from the offset on and keeps the rest |
| FileStreams.ReadDelivers | DLLExportList.cs:115-146 | a read into a fresh `count`-byte buffer holds the file byte at each position that exists and zero past the end of the file; the position advances by `count`, stops at the end of the file, or stays put when already past it |
| FileStreams.ReadTracks | DLLExportList.cs:118-146 | successive reads that never check their counts see the file as if each read advanced by its full count |
| FileStreams.ReadInto | DLLExportList.cs:156 | `Stream.Read` fails exactly on a bad offset or count and then leaves the buffer unchanged; otherwise it copies the available bytes and keeps the rest of the buffer |
| PeHeaders.ReadHeaders | DLLExportList.cs:113-146 | an empty file is rejected; accepted headers have a supported machine, the DLL flag, nonzero export directory fields and a full section table |
| PeHeaders.ReadCoffOnward | DLLExportList.cs:125-146 | from the COFF header on, acceptance implies the machine, DLL flag and export-entry checks passed |
| PeHeaders.DecodeOptional | DLLExportList.cs:133-146 | the optional header is accepted exactly when its fields are readable and the export entry is present, and then the fields are those at the PE32 or PE32+ layout's offsets (shifted by 16); a short header fails with `OutOfRange`, an absent entry with `NoExportTable` |
| PeHeaders.DosStubCheck | DLLExportList.cs:115-116 | the "MZ" text test holds exactly when the first two file bytes are `M`, `Z` |
| PeHeaders.PeSignatureCheck | DLLExportList.cs:122-123 | the "PE\0\0" text test holds exactly when the four bytes at the offset, zero past the end of the file, are `P`, `E`, 0, 0 |
| PeHeaders.CoffOnwardLayout | DLLExportList.cs:125-146 | the streamed COFF header, optional header and section table are the bytes at their fixed file offsets |
| PeHeaders.StreamLayout | DLLExportList.cs:118-125 | after the signature the COFF header is read at the PE offset plus four |
| PeHeaders.ReadHeadersLayout | DLLExportList.cs:113-146 | the stream-driven reader equals the reader by fixed file offsets, with the same checks in the same order |
| PeHeaders.ReadHeadersAccepts | DLLExportList.cs:113-146 | the reader accepts exactly the well-formed files and returns the fields at their layout's offsets |
| PeHeaders.ReadHeadersRejects | DLLExportList.cs:113-143 | each failed check yields its own error: `NoDosStub`, `OutOfRange` for a negative PE offset, `NoPeSignature`, `UnsupportedCpu(machine)`, `NotADll`, `OutOfRange` for a short optional header, `NoExportTable` |
| ImageMapper.SectionAt | DLLExportList.cs:152-154 | a section header's three fields are readable exactly when its bytes +12 to +24 lie in the table |
| ImageMapper.CopySection | DLLExportList.cs:155-156 | copying a section succeeds exactly when no field is negative and the raw data fits at its virtual address; it keeps the image length and fails only with `OutOfRange` |
| ImageMapper.MapSections | DLLExportList.cs:149-158 | the mapping loop keeps the image length |
| ImageMapper.MappedImage | DLLExportList.cs:147-158 | a mapped image has exactly `SizeOfImage` bytes |
| ImageMapper.MapImage | DLLExportList.cs:147-158 | the in-place loop over a fresh zeroed array yields the mapped image or its error |
| ImageMapper.CopySectionInto | DLLExportList.cs:155-156 | the seek and read of one section change the array exactly as `CopySection` describes |
| ImageMapper.MapStep | DLLExportList.cs:150-157 | one more iteration reads the next section header and copies that section |
| ImageMapper.MapSectionsFails | DLLExportList.cs:149-158 | a failing section aborts the loop with its error |
| ImageMapper.MapSectionsSucceeds | DLLExportList.cs:149-158 | the loop succeeds exactly when every section header is readable and every section fits |
| ImageMapper.LastWriter | DLLExportList.cs:149-158 | it finds the last section that wrote an image byte, or reports that no section did |
| ImageMapper.CopiedByte | DLLExportList.cs:155-156 | after one copy each byte is the file byte the section put there, or is unchanged |
| ImageMapper.MappedByte | DLLExportList.cs:149-158 | each byte comes from the last section that wrote it; later sections overwrite earlier ones |
| ImageMapper.MappedImageBytes | DLLExportList.cs:147-158 | each mapped byte is the last writer's file byte, or zero where no section wrote |
| ImageMapper.MappedImageSucceeds | DLLExportList.cs:147-158 | mapping succeeds exactly when `SizeOfImage` can be allocated and every section fits; sections are never truncated |
| Strings.Widen | DLLExportList.cs:168 | `(char)b` keeps the length and the code of every byte |
| Strings.Terminated | DLLExportList.cs:160-171 | the text has no zero byte, stops at the first zero byte or the end of the image, is at most the bytes remaining, and is empty past the end |
| Strings.TerminatedOfEncoding | DLLExportList.cs:160-171 | reading back a NUL-terminated encoding gives the text |
| Strings.StringAt | DLLExportList.cs:160-171 | `BytesToStr` fails exactly on a negative offset |
| Strings.BytesToStr | DLLExportList.cs:160-171 | the scanning loop yields the terminated text, or fails on a negative offset |
| Strings.TerminatedIs | DLLExportList.cs:164-170 | nonzero bytes ended by a zero byte or the end of the image are the terminated text |
| Strings.HexDigit | DLLExportList.cs:197 | every digit is an upper-case hexadecimal digit |
| Strings.HexDigits | DLLExportList.cs:197 | `n` digits, all upper-case hexadecimal |
| Strings.HexValueOfDigits | DLLExportList.cs:197 | the digits parse back to the value |
| Strings.Hex8Format | DLLExportList.cs:197 | `"0x" + X8` is ten characters: the prefix and eight upper-case digits that parse back to the address |
| ExportWalker.Offset | DLLExportList.cs:178-186 | `(int)rva + k` is a signed 32-bit value congruent to `rva + k` |
| ExportWalker.CursorOffset | DLLExportList.cs:192-200 | a `uint` cursor cast to `int` lands where the unchecked `int` offset does |
| ExportWalker.Field | DLLExportList.cs:178-186 | a directory field read succeeds exactly when its four bytes lie in the image, and it is the little-endian word there |
| ExportWalker.ReadDirectory | DLLExportList.cs:178-186 | the directory is read exactly when all seven fields lie in the image; otherwise `OutOfRange` |
| ExportWalker.DirectoryLayout | DLLExportList.cs:178-186 | in an image below 2^31 bytes the fields are the words at RVA+12 to RVA+36 |
| ExportWalker.FieldAt | DLLExportList.cs:178-186 | in an image below 2^31 bytes field `n` is the word at RVA+4n |
| ExportWalker.EntryPointForm | DLLExportList.cs:197 | a forwarder yields the text at its address and fails exactly when the address is 2^31 or more; any other address yields `0x` and eight hexadecimal digits that parse back to it |
| ExportWalker.EntryAt | DLLExportList.cs:192-198 | an entry fails only with `OutOfRange` |
| ExportWalker.EntryAtSucceeds | DLLExportList.cs:192-198 | an entry is read exactly when its name pointer, ordinal index and address lie in the image, its entry point forms and its name pointer is below 2^31 |
| ExportWalker.EntryAtFields | DLLExportList.cs:192-196 | the name pointer and address are the words read, and the ordinal is the ordinal index plus the base, wrapped |
| ExportWalker.EntryAtTexts | DLLExportList.cs:197-198 | the name is the text at the name pointer, and the entry point is the one its address gives |
| ExportWalker.Rebase | DLLExportList.cs:194-196 | subtracting the ordinal base from the ordinal gives back the index into the address table |
| ExportWalker.EntryOffsets | DLLExportList.cs:190-200 | entry `i` reads name pointer `i` at `NameTblPtr + 4i` and ordinal index `i` at `OrdTblPtr + 2i` |
| ExportWalker.CursorIs | DLLExportList.cs:199-200 | after `i` steps the cursor is the table start plus `step * i`, modulo 2^32 |
| ExportWalker.StepAhead | DLLExportList.cs:199-200 | wrapping at each step equals wrapping once at the end |
| ExportWalker.CursorOffsetIs | DLLExportList.cs:192-200 | the cursor cast to `int` is the offset of element `i` |
| ExportWalker.WalkResult | DLLExportList.cs:190-201 | the loop succeeds exactly when every entry does, and then holds them in index order; otherwise it fails with some entry's error |
| ExportWalker.WalkStep | DLLExportList.cs:190-201 | one iteration either aborts with an error or appends entry `n` |
| ExportWalker.WalkFails | DLLExportList.cs:190-201 | after the first failure the loop's result is that failure |
| ExportWalker.EntriesResult | DLLExportList.cs:190-201 | `FunctionsCount` entries are read exactly when each one can be, with entry `i` at index `i`; any failure is `OutOfRange` |
| ExportWalker.ExportsOf | DLLExportList.cs:173-203 | the walk succeeds exactly when the directory is readable, the module name pointer is below 2^31 and every entry is read. The list then has the directory's fields, `x64` iff PE32+, `x86 == !x64`, the module name text and the entries in order |
| ExportWalker.WalkExports | DLLExportList.cs:173-203 | the walk over the mapped array yields the export list or its error |
| ExportWalker.FillEntries | DLLExportList.cs:190-201 | the loop over the `Functions` array, with its stepping cursors, yields the entries in index order or the first failure |
| ExportWalker.ReadEntry | DLLExportList.cs:192-200 | one iteration, with the cursors `i` steps past the table starts, yields entry `i` |
| ExportWalker.ReadEntryPoint | DLLExportList.cs:197 | the forwarder test and the two ways of forming the entry point agree with `EntryPoint` |
| DllExports.GetDllExportFunctions | DLLExportList.cs:96-205 | the three stages in sequence yield the decoded export list or the first stage's error |
| DllExports.DecodeRejects | DLLExportList.cs:113-143 | empty file, missing "MZ", negative PE offset, missing "PE\0\0", unsupported CPU, missing DLL flag, short optional header and missing export entry each yield their own error |
| DllExports.DecodeLaterErrors | DLLExportList.cs:147-201 | past the headers, a `SizeOfImage` above the array limit yields `ImageTooLarge`; every other failure is `OutOfRange` |
| DllExports.MappedImageErrors | DLLExportList.cs:147-158 | once the image is allocated, mapping fails only with `OutOfRange` |
| DllExports.MapSectionsErrors | DLLExportList.cs:149-158 | the mapping loop fails only with `OutOfRange` |
| DllExports.DecodeSucceeds | DLLExportList.cs:96-205 | a decoded file is well formed and `x64` iff its magic is 0x020B, with `x86 == !x64`. The module name is the text at its pointer, the list has `FunctionsCount` entries, and entry `i` is read through name pointer `i` and ordinal index `i` |

## Left out

- The user interface and report export (Form1.cs, XMLSaved.cs) are not part of this model.
- The `ToString` overrides are display-only and are not modelled.
- Opening and disposing the `FileStream` (line 111) are not modelled. The file is an immutable
  byte sequence, so a missing or unreadable file is outside the model.
- Exception types and messages are collapsed into the `Error` datatype. Every framework
  argument check becomes `OutOfRange`.
- ReadHeaders: the stream position moves by threading a `Stream` value through the reads, not
  by updating `fs.Position` in place.
- FileStreams.ReadInto: `Stream.Read` is assumed to deliver every byte the file still has.
  Short reads in the middle of a file, which the API permits, are not modelled.
- ImageMapper.MapImage: allocating `SizeOfImage` bytes fails only above the runtime's
  byte-array limit (`ImageTooLarge`). Running out of memory below that limit is not modelled.
- ExportWalker.FillEntries: allocating the `Functions` array of `FunctionsCount` records is
  assumed to succeed. An `OutOfMemoryException` for a huge count is not modelled.
- ExportWalker.FillEntries and ExportWalker.ReadEntry are stated for a ghost `entry` function
  that agrees with `Entry` at every index. `WalkExports` passes `Entry` itself, so its
  contract is the full one.
