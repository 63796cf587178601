/** The failures the XMP code raises, and a result type that carries them.
    Every `XMPError` the module raises is one constructor here; so are the Python
    exceptions the same code can raise on malformed input (`struct.error`,
    `IndexError`, `TypeError`), so that no input is excluded by a precondition. */
module Errors {

  datatype XmpError =
    | UnsupportedFormat   // `load`: no parser for the file extension
    | NotAJpegFile        // JPEG start-of-image marker missing
    | NotAPngFile         // PNG signature missing
    | InvalidSegment      // a JPEG segment that does not start with 0xFF (also at end of file)
    | Truncated           // `struct.unpack` on a short read (`struct.error`)
    | ChecksumError       // a PNG chunk whose stored CRC-32 differs from the computed one
    | NoInsertionPoint    // no position found to insert a packet
    | PacketTooLarge      // JPEG: framed packet longer than 65502 bytes
    | PacketTooBig        // `pad_packet`: packet longer than the requested size
    | EmptyPadding        // `pad_packet`: `pad[-1]` on an empty pad (`IndexError`)
    | LengthOverflow      // `struct.pack` of a length that does not fit its field (`struct.error`)
    | NoPacket            // `get_xmp` with no cached packet (`None[:]`, a `TypeError`)

  datatype Result<+T> = Ok(value: T) | Err(error: XmpError) {
    predicate IsFailure() { Err? }

    function PropagateFailure<U>(): Result<U>
      requires Err?
    {
      Err(error)
    }

    function Extract(): T
      requires Ok?
    {
      value
    }
  }

  datatype Option<+T> = None | Some(value: T)
}
