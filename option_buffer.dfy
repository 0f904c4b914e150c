/** The caller-owned output buffer every writer appends to. */
module Buffer {
  import opened Bytes

  /** An `OptionBuffer`, that is a `std::vector<uint8_t>`: its contents. */
  class OptionBuffer {
    var data: seq<Byte>

    /** An empty vector. */
    constructor ()
      ensures data == []
    {
      data := [];
    }

    /** A vector holding a copy of the given octets. */
    constructor FromBytes(bytes: seq<Byte>)
      ensures data == bytes
    {
      data := bytes;
    }
  }
}
