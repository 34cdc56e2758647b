/** Types shared by every transcoder: Python 2 byte strings, results and the
    failures that the transcoders raise as assertion errors. */
module Common {

  /** One character of a Python 2 `str`: a byte, shown as a character. */
  type Byte = c: char | c as int < 256 witness '\0'

  /** A Python 2 `str` (a string of bytes). */
  type Bytes = seq<Byte>

  /** The failures the transcoders raise; each names the offending unit. */
  datatype Error =
    | BlockSizeMismatch(size: nat)        // blocks(): length not a multiple of `size`
    | DivisionByZero                      // blocks() with size 0: `len % 0` raises
    | UnencodableCharacter(c: char)       // morse_encode(): character not in the table
    | UndecodablePattern(token: string)   // morse_decode(): token not in the reverse table
    | BitCountMismatch(length: nat)       // bin_decode(): length not divisible by 8
    | NotBinary(group: Bytes)             // bin_decode(): int(group, 2) rejects the group
    | MalformedBlock(shorthand: char)     // ascii85_decode(): a run before `y`/`z` not a multiple of 5
    | InvalidBlock(group: Bytes)          // ascii85_decode(): group value above 2^32 - 1
    | UnknownCodec(name: string)          // registry: no codec of that name

  /** The outcome of a transform: a value, or the failure it raised. */
  datatype Result<+T> = Success(value: T) | Failure(error: Error)
}
