/** Option and Result values, and the errors the save-file pipeline raises. */
module Wrappers {

  datatype Option<+T> = None | Some(value: T)

  /** Why an operation of the pipeline gave up. Each constructor stands for one
      exception the tool throws; the offsets are those its messages report. */
  datatype Error =
    | NotSsf1                          // container magic "SSF1" missing
    | HeaderTooShort                   // header shorter than the 16 fixed bytes
    | OutOfRange                       // a read or copy outside an array: the runtime's argument exception
    | UnexpectedEof(at: int)           // fewer than 8 bytes left for a chunk record
    | InvalidChunkSize(at: int)        // compressed size not positive, or record overruns the file
    | Undecompressable(at: int)        // neither zlib nor raw deflate yields data
    | NoCompressedBlock                // the fallback scan found no chunk record
    | NoSmbhBlocks                     // no valid block start within the scan bound
    | InvalidValueJson                 // the replacement value does not parse
    | NullValueJson                    // the replacement value parses to JSON null
    | StackOverflow                    // the deep replacement would recurse forever
    | NoBlockPatched                   // nothing matched: a no-op must not be written

  datatype Result<+T> = Success(value: T) | Failure(error: Error)
}
