/** The errors the codec, the value model and the dump parser report.
    Go wraps errors in messages; here each kind keeps the data its message names. */
module Errors {
  import opened Bytes

  datatype Error =
    | ShortRead                                   // io.EOF / io.ErrUnexpectedEOF from a reader
    | InvalidLength(l: int)                       // document length prefix outside [5, 16777216]
    | InvalidStringLength(l: int)                 // string length prefix below 1
    | StringNotTerminated                         // string value whose last byte is not 0x00
    | TrailingBytes                               // a byte follows the 0x00 that ends the element list
    | UnhandledTag(t: byte)                       // element tag with no decode branch
    | UnhandledType                               // MarshalBinary: value of a kind with no encode branch
    | ArrayKey(index: nat, key: Bytes)            // array key at `index` is not its decimal form
    | NoElement(index: nat)                       // array key missing from the map
    | CountMismatch(values: nat, keys: nat)       // len(m) != len(keys)
    | InvalidKey(key: Bytes)                      // empty or not UTF-8
    | KeyNotFound(key: Bytes)                     // listed key absent from the map
    | DuplicateKey(key: Bytes)                    // key listed twice
    | UnsupportedType                             // validateValue rejects the value's kind
    | OddArguments(n: nat)                        // MakeDocument with an odd argument count
    | InvalidKeyType                              // MakeDocument key argument that is not a string
    | KeyPresent(key: Bytes)                      // add of a key already in the map
    | OutOfBounds(position: int, length: nat)     // Array.Get / Array.Set index outside [0, len)
    | InvalidHexByte(c: char)                     // hex.DecodeString: character that is not a hex digit
    | OddHexLength                                // hex.DecodeString: odd number of digits
}
