/** The ways one call of the export-table decoder can fail, and the result type that carries them. */
module Results {

  /** Every exception the decoder can raise, collapsed into one value per cause. */
  datatype Error =
    | EmptyFile                      // the file has length zero
    | NoDosStub                      // the first two bytes are not "MZ"
    | NoPeSignature                  // the four bytes at the PE offset are not "PE\0\0"
    | UnsupportedCpu(machine: nat)   // COFF Machine is neither i386 nor AMD64
    | NotADll                        // COFF Characteristics lacks IMAGE_FILE_DLL
    | NoExportTable                  // a zero in NumberOfRvaAndSizes or the export RVA or size
    | OutOfRange                     // a framework argument check: BitConverter index, stream position,
                                     // Stream.Read offset or count, array index
    | ImageTooLarge                  // SizeOfImage exceeds the longest byte array the runtime allocates

  /** Success or the error that aborted the decode; usable with `:-`. */
  datatype Result<T> = Success(value: T) | Failure(error: Error) {
    predicate IsFailure() { Failure? }

    function PropagateFailure<U>(): Result<U>
      requires Failure?
    {
      Failure(error)
    }

    function Extract(): T
      requires Success?
    {
      value
    }
  }
}
