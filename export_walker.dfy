/** Export walker: the Export Directory Table at the export RVA of the mapped image, and one
    record per entry of the export address table, found through the name pointer and ordinal
    tables (PE/COFF specification, section 6.3). */
module ExportWalker {
  import opened Results
  import opened Bytes
  import opened Strings
  import opened PeHeaders

  /** One exported function. `namePtr` is the record's private field. */
  datatype ExportFunction = ExportFunction(
    namePtr: uint32,
    name: string,
    entryPoint: string,
    ordinal: uint32,
    address: uint32)

  /** What the decoder returns for a DLL. `moduleNamePtr` is the record's private field. */
  datatype DllExportList = DllExportList(
    moduleNamePtr: uint32,
    moduleName: string,
    ordinalBase: uint32,
    functionsCount: uint32,
    namesCount: uint32,
    x86: bool,
    x64: bool,
    functions: seq<ExportFunction>)

  /** The seven fields of the Export Directory Table the decoder reads (offsets 12 to 36). */
  datatype ExportDirectory = ExportDirectory(
    moduleNamePtr: uint32,
    ordinalBase: uint32,
    functionsCount: uint32,
    namesCount: uint32,
    functionTable: uint32,
    nameTable: uint32,
    ordinalTable: uint32)

  /** Everything one entry of the walk depends on besides the image and its index. */
  datatype ExportTables = ExportTables(
    exportRva: uint32,
    endOfSection: uint32,
    ordinalBase: uint32,
    functionTable: uint32,
    nameTable: uint32,
    ordinalTable: uint32)

  /** `(int)rva + k` in unchecked `int` arithmetic, the index every image read starts at. */
  function Offset(rva: uint32, k: int): (r: int)
    ensures -TwoTo31 <= r < TwoTo31
    ensures Wrap32(r) == Wrap32(rva + k)
  {
    Unchecked(Signed32(rva) + k)
  }

  /** A `(uint)` cursor advanced by `k` in unchecked arithmetic and cast to `int` lands where
      `Offset` does. */
  lemma CursorOffset(rva: uint32, k: int)
    ensures Signed32(Wrap32(rva + k)) == Offset(rva, k)
  {
    WrapAdd(Signed32(rva) + k, 0);
    assert Wrap32(Signed32(rva) + k) == Wrap32(rva + k) by {
      WrapAdd(Signed32(rva), k);
      WrapAdd(rva, k);
    }
  }

  /** The four bytes of directory field `n` (at byte `4 * n` of the table) lie in the image. */
  predicate FieldReadable(image: seq<uint8>, rva: uint32, n: nat)
  {
    0 <= Offset(rva, 4 * n) && Offset(rva, 4 * n) + 4 <= |image|
  }

  /** All seven fields the decoder reads, offsets 12 to 36, lie in the image. */
  predicate DirectoryReadable(image: seq<uint8>, rva: uint32)
  {
    FieldReadable(image, rva, 3) && FieldReadable(image, rva, 4) && FieldReadable(image, rva, 5) &&
    FieldReadable(image, rva, 6) && FieldReadable(image, rva, 7) && FieldReadable(image, rva, 8) &&
    FieldReadable(image, rva, 9)
  }

  /** `BitConverter.ToUInt32(ImageData, (int)ExportAddr + 4 * n)`. */
  function Field(image: seq<uint8>, rva: uint32, n: nat): (r: Result<uint32>)
    ensures r.Success? <==> FieldReadable(image, rva, n)
    ensures r.Failure? ==> r.error == OutOfRange
    ensures r.Success? ==> r.value == LeU32(image, Offset(rva, 4 * n))
  {
    ToUInt32(image, Offset(rva, 4 * n))
  }

  /** The seven reads of the Export Directory Table, fields 3 to 9 (offsets 12 to 36). */
  function ReadDirectory(image: seq<uint8>, rva: uint32): (r: Result<ExportDirectory>)
    ensures r.Success? <==> DirectoryReadable(image, rva)
    ensures r.Failure? ==> r.error == OutOfRange
  {
    var moduleNamePtr :- Field(image, rva, 3);
    var ordinalBase :- Field(image, rva, 4);
    var functionsCount :- Field(image, rva, 5);
    var namesCount :- Field(image, rva, 6);
    var functionTable :- Field(image, rva, 7);
    var nameTable :- Field(image, rva, 8);
    var ordinalTable :- Field(image, rva, 9);
    Success(ExportDirectory(moduleNamePtr, ordinalBase, functionsCount, namesCount,
                            functionTable, nameTable, ordinalTable))
  }

  /** When the table lies inside an image shorter than 2^31 bytes, no offset wraps: the
      fields are the little-endian words at RVA+12, +16, ..., +36, as section 6.3.1 of the
      PE/COFF specification lays them out. */
  lemma DirectoryLayout(image: seq<uint8>, rva: uint32)
    requires rva + 40 <= |image| < TwoTo31
    ensures ReadDirectory(image, rva) ==
              Success(ExportDirectory(LeU32(image, rva + 12), LeU32(image, rva + 16), LeU32(image, rva + 20),
                                      LeU32(image, rva + 24), LeU32(image, rva + 28), LeU32(image, rva + 32),
                                      LeU32(image, rva + 36)))
  {
    FieldAt(image, rva, 3);
    FieldAt(image, rva, 4);
    FieldAt(image, rva, 5);
    FieldAt(image, rva, 6);
    FieldAt(image, rva, 7);
    FieldAt(image, rva, 8);
    FieldAt(image, rva, 9);
  }

  /** A field of a table that lies below 2^31 is read at RVA + 4n exactly. */
  lemma FieldAt(image: seq<uint8>, rva: uint32, n: nat)
    requires rva + 4 * n + 4 <= |image| < TwoTo31
    ensures Field(image, rva, n) == Success(LeU32(image, rva + 4 * n))
  {
    assert Offset(rva, 4 * n) == rva + 4 * n;
  }

  function TablesOf(h: Headers, d: ExportDirectory): ExportTables
  {
    ExportTables(h.exportRva, Wrap32(h.exportRva + h.exportSize), d.ordinalBase,
                 d.functionTable, d.nameTable, d.ordinalTable)
  }

  /** The forwarder test: the address points strictly inside the export section, whose end
      is `ExportAddr + ExportSize` wrapped to 32 bits. */
  predicate IsForwarder(t: ExportTables, address: uint32)
  {
    t.exportRva < address < t.endOfSection
  }

  /** The entry point text: the forwarder string the address points at, or the address as
      `0x` and eight upper-case hexadecimal digits. */
  function EntryPoint(image: seq<uint8>, t: ExportTables, address: uint32): Result<string>
  {
    if IsForwarder(t, address) then StringAt(image, Signed32(address)) else Success(Hex8(address))
  }

  /** A forwarder's entry point is the text at its address, which must be below 2^31; any
      other address is written as `0x` and the eight hexadecimal digits of its value. */
  lemma EntryPointForm(image: seq<uint8>, t: ExportTables, address: uint32)
    ensures var r := EntryPoint(image, t, address);
      IsForwarder(t, address) ==> (r.Failure? <==> TwoTo31 <= address)
    ensures var r := EntryPoint(image, t, address);
      IsForwarder(t, address) && r.Success? ==> r.value == Terminated(image, address)
    ensures var r := EntryPoint(image, t, address);
      !IsForwarder(t, address) ==>
        r.Success? && |r.value| == 10 && r.value[..2] == "0x" &&
        (forall k :: 2 <= k < 10 ==> IsUpperHexDigit(r.value[k])) && HexValue(r.value[2..]) == address
    ensures var r := EntryPoint(image, t, address);
      r.Failure? ==> r.error == OutOfRange
  {
    Hex8Format(address);
  }

  /** The entry whose name pointer is read at `nameAt` and ordinal index at `ordinalAt`:
      the address it selects from the export address table, then the entry point and name. */
  function EntryAt(image: seq<uint8>, t: ExportTables, nameAt: int, ordinalAt: int): (r: Result<ExportFunction>)
    ensures r.Failure? ==> r.error == OutOfRange
  {
    var namePtr :- ToUInt32(image, nameAt);
    var index :- ToUInt16(image, ordinalAt);
    var address :- ToUInt32(image, Offset(t.functionTable, 4 * index));
    var entryPoint :- EntryPoint(image, t, address);
    var name :- StringAt(image, Signed32(namePtr));
    Success(ExportFunction(namePtr, name, entryPoint, Wrap32(index + t.ordinalBase), address))
  }

  /** An entry is read exactly when its name pointer, ordinal index and address lie in the
      image, its entry point can be formed and its name pointer is below 2^31. */
  lemma EntryAtSucceeds(image: seq<uint8>, t: ExportTables, nameAt: int, ordinalAt: int)
    ensures EntryAt(image, t, nameAt, ordinalAt).Success? <==>
              0 <= nameAt && nameAt + 4 <= |image| && 0 <= ordinalAt && ordinalAt + 2 <= |image| &&
              var addressAt := Offset(t.functionTable, 4 * LeU16(image, ordinalAt));
              0 <= addressAt && addressAt + 4 <= |image| &&
              EntryPoint(image, t, LeU32(image, addressAt)).Success? && LeU32(image, nameAt) < TwoTo31
  {
  }

  /** A successful entry holds the values read at its offsets and the ordinal index plus
      the base. */
  lemma EntryAtFields(image: seq<uint8>, t: ExportTables, nameAt: int, ordinalAt: int)
    requires EntryAt(image, t, nameAt, ordinalAt).Success?
    ensures 0 <= nameAt && nameAt + 4 <= |image| && 0 <= ordinalAt && ordinalAt + 2 <= |image|
    ensures var f := EntryAt(image, t, nameAt, ordinalAt).value;
      var index := LeU16(image, ordinalAt);
      var addressAt := Offset(t.functionTable, 4 * index);
      0 <= addressAt && addressAt + 4 <= |image| &&
      f.namePtr == LeU32(image, nameAt) && f.address == LeU32(image, addressAt) &&
      f.ordinal == Wrap32(index + t.ordinalBase)
  {
  }

  /** A successful entry's name is the text its name pointer points at, and its entry point
      is the one its address gives. */
  lemma EntryAtTexts(image: seq<uint8>, t: ExportTables, nameAt: int, ordinalAt: int)
    requires EntryAt(image, t, nameAt, ordinalAt).Success?
    ensures var f := EntryAt(image, t, nameAt, ordinalAt).value;
      f.namePtr < TwoTo31 && f.name == Terminated(image, f.namePtr) &&
      EntryPoint(image, t, f.address) == Success(f.entryPoint)
  {
  }

  /** Subtracting the ordinal base from an ordinal, in `uint` arithmetic, gives back the
      index into the export address table. */
  lemma Rebase(index: uint16, ordinalBase: uint32)
    ensures Wrap32(Wrap32(index + ordinalBase) - ordinalBase) == index
  {
    WrapAdd(index + ordinalBase, -(ordinalBase as int));
  }

  /** Entry `i` reads name pointer `i` at `NameTblPtr + 4 * i` and ordinal index `i` at
      `OrdTblPtr + 2 * i`, offsets taken in unchecked `int` arithmetic. */
  lemma EntryOffsets(image: seq<uint8>, t: ExportTables, i: nat)
    ensures Entry(image, t, i) == EntryAt(image, t, Offset(t.nameTable, 4 * i), Offset(t.ordinalTable, 2 * i))
  {
    CursorOffsetIs(t.nameTable, 4, i);
    CursorOffsetIs(t.ordinalTable, 2, i);
  }

  /** Entry `i`: name pointer `i` of the name pointer table and ordinal index `i` of the
      ordinal table, which selects the address; the ordinal is the index plus the base. */
  function Entry(image: seq<uint8>, t: ExportTables, i: nat): Result<ExportFunction>
  {
    EntryAt(image, t, Signed32(Cursor(t.nameTable, 4, i)), Signed32(Cursor(t.ordinalTable, 2, i)))
  }

  /** A table cursor after `i` unchecked `uint` steps of `step` bytes from `base`. */
  function Cursor(base: uint32, step: nat, i: nat): uint32
  {
    if i == 0 then base else Wrap32(Cursor(base, step, i - 1) + step)
  }

  /** The cursor is the table start plus `step * i`, modulo 2^32. */
  lemma {:induction false} CursorIs(base: uint32, step: nat, i: nat)
    ensures Cursor(base, step, i) == Wrap32(base + step * i)
  {
    if i > 0 {
      CursorIs(base, step, i - 1);
      StepAhead(base, step, i);
    }
  }

  /** One more step of `step` bytes, wrapped at every step or only at the end. */
  lemma StepAhead(base: uint32, step: nat, i: nat)
    requires i > 0
    ensures Wrap32(Wrap32(base + step * (i - 1)) + step) == Wrap32(base + step * i)
  {
    WrapAdd(base + step * (i - 1), step);
    assert step * (i - 1) + step == step * i;
  }

  /** Read as an `int`, the cursor is the offset of element `i` of the table. */
  lemma CursorOffsetIs(base: uint32, step: nat, i: nat)
    ensures Signed32(Cursor(base, step, i)) == Offset(base, step * i)
  {
    CursorIs(base, step, i);
    CursorOffset(base, step * i);
  }

  /** The results of `entry(0)`, ..., `entry(n - 1)` in index order; the walk stops at the
      first entry that fails, with that entry's error. */
  function Walk<T>(entry: nat -> Result<T>, n: nat): Result<seq<T>>
  {
    if n == 0 then Success([])
    else
      var done :- Walk(entry, n - 1);
      var last :- entry(n - 1);
      Success(done + [last])
  }

  /** The walk succeeds exactly when every entry does, and then holds every entry's value in
      index order; when it fails, it fails with the error of some entry. */
  lemma {:induction false} WalkResult<T>(entry: nat -> Result<T>, n: nat)
    ensures Walk(entry, n).Success? <==> forall i :: 0 <= i < n ==> entry(i).Success?
    ensures Walk(entry, n).Success? ==>
              |Walk(entry, n).value| == n && forall i :: 0 <= i < n ==> entry(i) == Success(Walk(entry, n).value[i])
    ensures Walk(entry, n).Failure? ==> exists i :: 0 <= i < n && entry(i) == Failure(Walk(entry, n).error)
  {
    if n > 0 {
      WalkResult(entry, n - 1);
    }
  }

  /** One more step of the walk. */
  lemma WalkStep<T>(entry: nat -> Result<T>, n: nat)
    ensures Walk(entry, n + 1) ==
              if Walk(entry, n).Failure? then Failure(Walk(entry, n).error)
              else if entry(n).Failure? then Failure(entry(n).error)
              else Success(Walk(entry, n).value + [entry(n).value])
  {
  }

  /** Once an entry fails, the walk fails with that error however many entries follow. */
  lemma {:induction false} WalkFails<T>(entry: nat -> Result<T>, k: nat, n: nat)
    requires k <= n
    requires Walk(entry, k).Failure?
    ensures Walk(entry, n) == Walk(entry, k)
    decreases n
  {
    if k < n {
      WalkFails(entry, k, n - 1);
    }
  }

  /** Entry `i` of the export tables, as a function of `i`. */
  function EntryOf(image: seq<uint8>, t: ExportTables): nat -> Result<ExportFunction>
  {
    (i: nat) => Entry(image, t, i)
  }

  /** The first `n` entries of the export tables, in table-index order. */
  function Entries(image: seq<uint8>, t: ExportTables, n: nat): Result<seq<ExportFunction>>
  {
    Walk(EntryOf(image, t), n)
  }

  /** The walk over the export tables succeeds exactly when every entry can be read, and
      then holds entry `i` at index `i`; every failure is a read out of range. */
  lemma EntriesResult(image: seq<uint8>, t: ExportTables, n: nat)
    ensures Entries(image, t, n).Success? <==> forall i :: 0 <= i < n ==> Entry(image, t, i).Success?
    ensures Entries(image, t, n).Success? ==>
              |Entries(image, t, n).value| == n &&
              forall i :: 0 <= i < n ==> Entry(image, t, i) == Success(Entries(image, t, n).value[i])
    ensures Entries(image, t, n).Failure? ==> Entries(image, t, n).error == OutOfRange
  {
    WalkResult(EntryOf(image, t), n);
    assert forall i :: 0 <= i < n ==> EntryOf(image, t)(i) == Entry(image, t, i);
  }

  /** The export list of a mapped image: the directory, the module name, then every entry. */
  function ExportsOf(image: seq<uint8>, h: Headers): (r: Result<DllExportList>)
    ensures r.Failure? ==> r.error == OutOfRange
    ensures r.Success? <==>
              DirectoryReadable(image, h.exportRva) &&
              var d := ReadDirectory(image, h.exportRva).value;
              d.moduleNamePtr < TwoTo31 && Entries(image, TablesOf(h, d), d.functionsCount).Success?
    ensures r.Success? ==>
              var d := ReadDirectory(image, h.exportRva).value;
              var list := r.value;
              list.x64 == h.Is64() && list.x86 == !list.x64 &&
              list.moduleNamePtr == d.moduleNamePtr && list.moduleName == Terminated(image, d.moduleNamePtr) &&
              list.ordinalBase == d.ordinalBase && list.functionsCount == d.functionsCount &&
              list.namesCount == d.namesCount &&
              list.functions == Entries(image, TablesOf(h, d), d.functionsCount).value
  {
    var d :- ReadDirectory(image, h.exportRva);
    var moduleName :- StringAt(image, Signed32(d.moduleNamePtr));
    EntriesResult(image, TablesOf(h, d), d.functionsCount);
    var functions :- Entries(image, TablesOf(h, d), d.functionsCount);
    Success(DllExportList(d.moduleNamePtr, moduleName, d.ordinalBase, d.functionsCount, d.namesCount,
                          !h.Is64(), h.Is64(), functions))
  }

  /** The walk over the mapped image: the directory fields, the `Functions` array, the module
      name, then the entries. */
  method WalkExports(image: array<uint8>, h: Headers) returns (r: Result<DllExportList>)
    ensures r == ExportsOf(image[..], h)
  {
    var d :- ReadDirectory(image[..], h.exportRva);
    var moduleName :- BytesToStr(image, Signed32(d.moduleNamePtr));
    var functions :- FillEntries(image, TablesOf(h, d), d.functionsCount, EntryOf(image[..], TablesOf(h, d)));
    return Success(DllExportList(d.moduleNamePtr, moduleName, d.ordinalBase, d.functionsCount, d.namesCount,
                                 !h.Is64(), h.Is64(), functions));
  }

  /** The loop that fills the `Functions` array while advancing the name-table and
      ordinal-table cursors by 4 and 2 bytes, in unchecked `uint` arithmetic; `entry` is any
      function that agrees with `Entry` on this image. */
  method FillEntries(image: array<uint8>, t: ExportTables, count: uint32, ghost entry: nat -> Result<ExportFunction>)
    returns (r: Result<seq<ExportFunction>>)
    requires forall k {:trigger Entry(image[..], t, k)} :: entry(k) == Entry(image[..], t, k)
    ensures r == Walk(entry, count)
  {
    var functions := new ExportFunction[count](_ => ExportFunction(0, "", "", 0, 0));
    var nameCursor: uint32 := t.nameTable;
    var ordinalCursor: uint32 := t.ordinalTable;
    var i := 0;
    while i < count
      invariant 0 <= i <= count
      invariant nameCursor == Cursor(t.nameTable, 4, i)
      invariant ordinalCursor == Cursor(t.ordinalTable, 2, i)
      invariant Walk(entry, i) == Success(functions[..i])
    {
      var next := ReadEntry(image, t, i, nameCursor, ordinalCursor, entry);
      WalkStep(entry, i);
      if next.Failure? {
        WalkFails(entry, i + 1, count);
        return Failure(next.error);
      }
      functions[i] := next.value;
      assert functions[..i + 1] == functions[..i] + [next.value];
      nameCursor := Wrap32(nameCursor + 4);
      ordinalCursor := Wrap32(ordinalCursor + 2);
      i := i + 1;
    }
    assert functions[..] == functions[..i];
    return Success(functions[..]);
  }

  /** One iteration of the walk, with the cursors `i` steps past the table starts: the name
      pointer, the ordinal index, the address `(int)FuncTblPtr + (int)Ordinal * 4` selects,
      the entry point, the name and the rebased ordinal; the result is entry `i`. */
  method ReadEntry(image: array<uint8>, t: ExportTables, i: nat, nameCursor: uint32, ordinalCursor: uint32,
                   ghost entry: nat -> Result<ExportFunction>)
    returns (r: Result<ExportFunction>)
    requires forall k {:trigger Entry(image[..], t, k)} :: entry(k) == Entry(image[..], t, k)
    requires nameCursor == Cursor(t.nameTable, 4, i) && ordinalCursor == Cursor(t.ordinalTable, 2, i)
    ensures r == entry(i)
  {
    assert entry(i) == Entry(image[..], t, i);
    var namePtr :- ToUInt32(image[..], Signed32(nameCursor));
    var index :- ToUInt16(image[..], Signed32(ordinalCursor));
    var address :- ToUInt32(image[..], Offset(t.functionTable, 4 * index));
    var entryPoint :- ReadEntryPoint(image, t, address);
    var name :- BytesToStr(image, Signed32(namePtr));
    return Success(ExportFunction(namePtr, name, entryPoint, Wrap32(index + t.ordinalBase), address));
  }

  /** The entry point of an entry: the forwarder string, or the address in hexadecimal. */
  method ReadEntryPoint(image: array<uint8>, t: ExportTables, address: uint32) returns (r: Result<string>)
    ensures r == EntryPoint(image[..], t, address)
  {
    if t.exportRva < address && address < t.endOfSection {
      r := BytesToStr(image, Signed32(address));
    } else {
      r := Success(Hex8(address));
    }
  }
}
