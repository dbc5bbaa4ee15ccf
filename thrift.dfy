/** The Parquet page header as seen by the page reader, and the contract of the
    Thrift Compact Protocol deserializer that produces it. The deserializer itself
    is a parameter of the model: only the properties below are assumed of it. */
module ParquetThrift {
  import opened Common

  /** The one field of the Thrift `PageHeader` struct the reader interprets:
      the number of payload bytes that follow the header on disk. */
  datatype PageHeader = PageHeader(compressedPageSize: Int32)

  /** A default-constructed header. */
  const DefaultHeader := PageHeader(0)

  /** A successful decode: the header and the number of bytes it occupied. */
  datatype Decoded = Decoded(header: PageHeader, consumed: nat)

  /** `deserialize_thrift_msg(buf, &len, COMPACT, &header)`: `None` when the
      bytes do not hold a complete header. */
  type Decoder = seq<Byte> -> Option<Decoded>

  /** The deserializer never reports more bytes consumed than it was given. */
  ghost predicate WellBehaved(decode: Decoder)
  {
    forall buf: seq<Byte> :: decode(buf).Some? ==> decode(buf).value.consumed <= |buf|
  }

  /** Buffer `b` starts with the bytes from which `a` decodes a header. */
  ghost predicate SharesHeader(decode: Decoder, a: seq<Byte>, b: seq<Byte>)
  {
    decode(a).Some? && decode(a).value.consumed <= |a| && decode(a).value.consumed <= |b| &&
    a[..decode(a).value.consumed] == b[..decode(a).value.consumed]
  }

  /** A sequential parse depends only on the bytes it consumed: any buffer that
      starts with those bytes decodes to the same header. */
  ghost predicate SelfDelimiting(decode: Decoder)
  {
    forall a: seq<Byte>, b: seq<Byte> {:trigger SharesHeader(decode, a, b)} ::
      SharesHeader(decode, a, b) ==> decode(b) == decode(a)
  }
}
