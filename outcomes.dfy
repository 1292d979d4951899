/** How an operation of the codec ends: with a value, with one of the
    `Err` results the source returns, or with a panic (an `unwrap`,
    `expect` or `todo!` that fails, or an arithmetic overflow). */
module Outcomes {
  import opened Bytes

  datatype Option<+T> = None | Some(value: T)

  /** The `Err` values the codec returns. The source carries them as
      messages; each constructor names one message. */
  datatype Error =
    | ShortRead              // io::Error "failed to fill whole buffer" from `read_exact`
    | FormatNotRecognized    // "File format not recognized"
    | InvalidVersion         // "Invalid file version"
    | NotFound               // io::ErrorKind::NotFound from `entity_from`
    | NotFolder(path: seq<byte>)  // "<path> is not folder"

  /** The panics the codec can reach. */
  datatype PanicReason =
    | NameReadShort          // archive.rs: `read_exact(..).unwrap()` on an entry name
    | IndexReadShort         // archive.rs: `read_exact(..).unwrap()` on the index block
    | PayloadReadShort       // unpack.rs: `read_exact(..).unwrap()` on a payload
    | NoFileStem             // unpack.rs: `file_stem().expect(..)`
    | NoParent               // unpack.rs: `parent().unwrap()` on an entry's output path
    | NoFileName             // pack.rs: `file_name().unwrap()`
    | SizeOverflow           // pack.rs: `u32::try_from(file_size).unwrap()`
    | ArithmeticOverflow     // pack.rs: u32 overflow or `u32::try_from(..).unwrap()` on an offset
    | Unimplemented          // pack.rs: `todo!` for directory input

  datatype Outcome<+T> = Ok(value: T) | Err(error: Error) | Panic(reason: PanicReason) {

    predicate IsFailure() {
      !Ok?
    }

    function PropagateFailure<U>(): (r: Outcome<U>)
      requires !Ok?
      ensures !r.Ok? && r.Err? == Err? && (Err? ==> r.error == error) && (Panic? ==> r.reason == reason)
    {
      if Err? then Err(error) else Panic(reason)
    }

    function Extract(): T
      requires Ok?
    {
      value
    }
  }
}
