/** The values the WAD decoder passes around: errors, results, an opened container and a
    decoded entry record. */
module WadTypes {

  import opened Bytes

  datatype Option<T> = None | Some(value: T)

  /** Every way the decoder stops. Each variant stands for one exception the tool raises. */
  datatype WadError =
    | BadMagic(found: seq<byte>)                 // the first four bytes are not "ZWF!"
    | HeaderTooShort                            // fewer than 252 header bytes: the size field cannot be unpacked
    | Truncated(declared: nat, onDisk: nat)     // the header implies more bytes than the file holds
    | IndexMisaligned                           // a short index block whose length is not a multiple of 8
    | NoLiveSlots                               // no index slot is in use (the minimum of nothing)
    | ZeroBias                                  // the smallest live pointer already sits right after the index
    | NotAnEntryPointer(ptr: nat)               // an offset that is not in the container's pointer list
    | UnterminatedPath                          // no NUL byte in the 96-byte path field
    | NonAsciiPath                              // a path byte of 0x80 or above
    | RecordTooShort                            // fewer than 108 record bytes: the size field cannot be unpacked
    | NotADirectory                             // the extraction destination is not an existing directory
    | NotEmpty                                  // the extraction destination already holds something
    | PathEscapes(path: string)                 // an entry path that would land outside the destination
    | WriteFailed(key: seq<string>)             // a file where a directory is needed, or the reverse

  datatype Result<T> = Ok(value: T) | Err(error: WadError)

  /** An opened container: the whole file and the rebased offsets of its live entries, in slot order. */
  datatype Wad = Wad(data: seq<byte>, entryPointers: seq<nat>)

  /** A decoded entry record; the body is present only when it was asked for. */
  datatype Entry = Entry(path: string, size: nat, body: Option<seq<byte>>)
}
