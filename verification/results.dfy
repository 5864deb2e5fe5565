/** Option, Result and the error taxonomy of the codec.
    Each error names the exception the Python code lets escape. */
module Results {

  datatype Option<+T> = None | Some(value: T)

  /** Why an encode or decode call fails. */
  datatype Error =
    | BufferUnderflow                              // struct.unpack_from: buffer too short
    | ItemCount(expected: nat, given: nat)         // struct.pack: wrong number of items
    | OutOfRange                                   // struct.pack: integer outside the code's range
    | WrongType                                    // struct.pack: wrong kind for the code; or the
                                                   // AttributeError of .encode/.decode on a non-str/non-bytes
    | MissingItem                                  // raw_result[0] on an empty unpack result
    | NotIterable                                  // iterating a non-iterable list field
    | UnknownEncoding(name: string)                // no codec registered under this name
    | TextEncodeError                              // str.encode failed
    | TextDecodeError                              // bytes.decode failed

  datatype Result<+T> = Success(value: T) | Failure(error: Error)
}
