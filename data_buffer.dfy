/** The growable byte buffer `Data` and the two `mutating append` helpers
    that fix_wave_header.swift adds to it (an ASCII string, a fixed-width
    integer), besides Foundation's own `append` of a whole `Data`. */
module DataBuffer {
  import opened Bytes

  class Data {
    var bytes: seq<Byte>

    /** `Data()`: an empty buffer. */
    constructor ()
      ensures bytes == []
    {
      bytes := [];
    }

    /** `append(_: Data)`: the other buffer's bytes go after the existing ones. */
    method AppendData(d: seq<Byte>)
      modifies this
      ensures bytes == old(bytes) + d
    {
      bytes := bytes + d;
    }

    /** `append(_: String)`: the string's ASCII bytes when it has an ASCII
        encoding; a string with a non-ASCII character appends nothing. */
    method AppendString(s: string)
      modifies this
      ensures bytes == old(bytes) + (if Ascii(s).Some? then Ascii(s).value else [])
    {
      match Ascii(s)
      case Some(d) => AppendData(d);
      case None =>
    }

    /** `append(_: Int16)`: the value's two bytes, little-endian. */
    method AppendInt16(v: Int16)
      modifies this
      ensures bytes == old(bytes) + LE16(v)
      ensures |bytes| == |old(bytes)| + 2
    {
      AppendData(LE16(v));
    }

    /** `append(_: Int32)`: the value's four bytes, little-endian. */
    method AppendInt32(v: Int32)
      modifies this
      ensures bytes == old(bytes) + LE32(v)
      ensures |bytes| == |old(bytes)| + 4
    {
      AppendData(LE32(v));
    }
  }
}
