# Parquet page reader

This project models the StarRocks Parquet column-chunk page reader
(`PageReader`). The reader walks the byte region `[start_offset, finish_offset)`
of a seekable input stream. It decodes one Thrift Compact page header at a time,
using an adaptive-length decode that grows its trial read fourfold until the
header decodes. It then hands out the page payload that follows the header,
through `read_bytes`, `skip_bytes` and `peek`. Each of these refuses any request
that would cross into the next header.

The Dafny modules are:

- `Common` (`common.dfy`): the status codes, `Option`, bytes, the `int32`
  type of Thrift, and the 64- and 32-bit wrap-around used by the reader's
  unsigned arithmetic.
- `ParquetThrift` (`thrift.dfy`): the page header and the deserializer. The
  deserializer is a function from a byte buffer to an optional
  (header, consumed length) pair. Two properties of deserializers are stated:
  - `WellBehaved`: a deserializer never consumes more than it was given;
  - `SelfDelimiting`: a header, once decoded, decodes the same from any buffer
    that extends its bytes.
- `Io` (`stream.dfy`): the seekable input stream, as a class with a fixed byte
  contents and a position. `read_at_fully` and `peek` may fail at any time with
  an I/O error. They always fail when the request runs past the end of the
  stream.
- `Parquet` (`page_reader.dfy`): the pure specification of each operation on
  the reader's cursor (`NextHeaderSpec`, `DecodeLoop`, `Consume`), and the
  `PageReader` class. The class's methods are proved to do exactly what the
  specification says, or else to fail with `IOError` and leave the cursor
  unchanged.
- `ParquetProperties` (`properties.dfy`): lemmas about the specification. They
  cover:
  - the reads the decode loop issues, and why it stops;
  - when the reader finds a header and when it reports corruption;
  - payload accounting between headers;
  - a worked example;
  - a defect in the header buffer's size.

## Model

| member | source | states |
|---|---|---|
| Parquet.PageReader.constructor | be/src/formats/parquet/page_reader.cpp:25-26 | the finish offset is start + length in 64-bit unsigned arithmetic, wrapping when the sum reaches 2^64; the cursor and the expected header position both start at the start offset |
| Parquet.NextHeaderSpec | be/src/formats/parquet/page_reader.cpp:28-65 | a cursor off the expected header position gives InternalError; a cursor at or past the finish gives EndOfFile; any failure leaves the cursor as it was; on success the cursor moved forward and stays within the region, and the next header is expected `compressed_page_size` bytes later, with 64-bit wrap-around |
| Parquet.PageReader.NextHeader | be/src/formats/parquet/page_reader.cpp:28-65 | the status and new cursor are those of `NextHeaderSpec` on the old cursor, or the status is IOError, which happens only after both guards passed (cursor at the expected header position and before the finish), and the cursor is unchanged |
| Parquet.PageReader.DecodeHeader | be/src/formats/parquet/page_reader.cpp:38-61 | the loop reports exactly the outcome of `DecodeLoop` from the initial 1024-byte trial (Ok with that header and length, Corruption), or IOError |
| Parquet.PageReader.Attempt | be/src/formats/parquet/page_reader.cpp:47-59 | one read plus decode at the cursor agrees with `AttemptAt` on the stream contents: found, corrupt or retry |
| Parquet.DecodeLoop | be/src/formats/parquet/page_reader.cpp:46-60 | the loop issues at least one read, and a decoded header never extends past the region's finish |
| Parquet.DecodeLoopStep | be/src/formats/parquet/page_reader.cpp:46-60 | one iteration: the outcome is that of the current attempt, and a retry only happens when the trial was at most the cap and ended before the finish; the loop then continues with four times the trial |
| Parquet.PageReader.ReadBytes | be/src/formats/parquet/page_reader.cpp:67-74 | a request that crosses the next header gives InternalError and changes neither the cursor nor the buffer; otherwise the first `size` bytes of the buffer receive exactly the stream bytes at the cursor and the cursor advances by `size`, or IOError leaves the cursor in place; bytes of the buffer past `size` are never touched; a read past the stream's end never succeeds |
| Parquet.PageReader.SkipBytes | be/src/formats/parquet/page_reader.cpp:76-82 | the status and new cursor are exactly `Consume`: InternalError and no change past the next header, else Ok and the cursor advanced by `size` |
| Parquet.PageReader.Peek | be/src/formats/parquet/page_reader.cpp:84-93 | the same guard; the stream is seeked to the cursor; the view holds exactly the stream bytes at the cursor; the cursor advances only when the peek succeeds |
| Io.SeekableInputStream.ReadAtFully | be/src/formats/parquet/page_reader.cpp:48 | a full read yields exactly the requested stream bytes; a short read is an error; the buffer past the requested length is left alone |
| Io.SeekableInputStream.Seek | be/src/formats/parquet/page_reader.cpp:88 | the stream's position becomes the given offset |
| Io.SeekableInputStream.Peek | be/src/formats/parquet/page_reader.cpp:90 | a successful peek returns exactly the bytes at the stream position |
| Parquet.AttemptAt | be/src/formats/parquet/page_reader.cpp:47-58 | one iteration: a short read iff the trial runs past the stream; a header only when the 32-bit-truncated prefix decodes; corruption only when the trial is over the cap or reaches the finish; a retry exactly when the prefix does not decode and neither bound is hit |
| Parquet.Consume | be/src/formats/parquet/page_reader.cpp:67-91 | the guard and advance shared by `read_bytes`, `skip_bytes` and `peek`: Ok iff the request ends at or before the next header position, else InternalError; on Ok the cursor moves by `size`, otherwise not at all; the next header position and header never change, and a cursor within the page stays within it |
| Parquet.HeaderBufferCapacity | be/src/formats/parquet/page_reader.cpp:39 | the corrected reservation: never more than the remaining region, and otherwise at least 1024 bytes and four times the cap |
| ParquetProperties.DecodeLoopReadsInRegion | be/src/formats/parquet/page_reader.cpp:43-59 | the first read is min(1024, remaining); every read is positive and fits in the remaining region; every read before the last was at most the cap and ended before the finish |
| ParquetProperties.DecodeLoopReadsBounded | be/src/formats/parquet/page_reader.cpp:46-60 | no read exceeds max(1024, 4 × cap) |
| ParquetProperties.DecodeLoopGeometric | be/src/formats/parquet/page_reader.cpp:46-60 | read i has length min(1024 × 4^i, remaining) |
| ParquetProperties.DecodeLoopGrowth | be/src/formats/parquet/page_reader.cpp:46-60 | read lengths strictly increase, so the loop terminates, and every trial before the last is within the cap |
| ParquetProperties.DecodeLoopStopCause | be/src/formats/parquet/page_reader.cpp:48-58 | a found header fits in the last read; corruption means the last trial exceeded the cap or reached the finish; a short read means the last read ran past the stream's end |
| ParquetProperties.DecodeLoopFindsHeader | be/src/formats/parquet/page_reader.cpp:46-60 | when the region holds a header of at most the cap's length, the loop finds exactly that header and its length, for a self-delimiting deserializer and provided 4 × cap < 2^32: `header_length` is a `uint32_t`, so larger trials would be truncated |
| ParquetProperties.NextHeaderFindsHeader | be/src/formats/parquet/page_reader.cpp:28-65 | in that case (including 4 × cap < 2^32) `next_header` succeeds, moves the cursor past the header and expects the next header `compressed_page_size` bytes later |
| ParquetProperties.HugeTrialLengthTruncated | be/src/formats/parquet/page_reader.cpp:44-57 | the 4 × cap < 2^32 bound is needed: with cap 2^30 + 1 and a 2^32 + 1 byte region holding a header of 2^30 + 1 bytes, the 2^32-byte trial truncates to 0 in `header_length` and the loop reports corruption |
| ParquetProperties.DecodeLoopRejectsGarbage | be/src/formats/parquet/page_reader.cpp:56-58 | when no prefix of the region up to max(trial, 4 × cap) bytes decodes, the loop reports corruption |
| ParquetProperties.NextHeaderRejectsGarbage | be/src/formats/parquet/page_reader.cpp:28-65 | when no prefix up to `HeaderBufferCapacity` bytes decodes, `next_header` reports Corruption and leaves the cursor unchanged |
| ParquetProperties.ConsumeAllWithinPage | be/src/formats/parquet/page_reader.cpp:67-82 | a sequence of payload requests all succeed iff their total stays within the page; on success the cursor moves by the total; the cursor never passes the next header, and the header fields never change |
| ParquetProperties.PayloadExactlyConsumed | be/src/formats/parquet/page_reader.cpp:28-70 | after a header, consuming exactly the page size lands on the next header; one more byte is refused; every shorter consumption makes the next `next_header` fail with InternalError |
| ParquetProperties.HeaderThenPayloadThenCorruption | be/src/formats/parquet/page_reader.cpp:28-82 | a 20-byte header declaring 50 bytes in a 100-byte region: `next_header` gives cursor 20 with the next header at 70; the payload brings the cursor to 70; the 30 trailing bytes there are reported as corruption |
| ParquetProperties.PageSizeUncheckedAgainstRegion | be/src/formats/parquet/page_reader.cpp:62-69 | the declared page size is not checked against the region: 500 bytes in a 100-byte region expects the next header at 520, and -50 wraps it to 2^64 - 30 |
| ParquetProperties.ReservedBufferOverrun | be/src/formats/parquet/page_reader.cpp:38-48 | with the buffer reserved at the header cap (16384), a region with no header makes the loop read 1024, 4096, 16384 and 65536 bytes, and the last read does not fit the buffer |
| ParquetProperties.CorrectedBufferFits | be/src/formats/parquet/page_reader.cpp:38-48 | a buffer of min(max(1024, 4 × cap), remaining) bytes holds every read the loop issues |

## Left out

- Parquet.PageReader.constructor: the initial values of `_offset`,
  `_next_header_pos` and `_cur_header` come from the class declaration, and
  that header file is not part of this model. The constructor at
  page_reader.cpp:25-26 does not set them. Starting both positions at
  `start_offset` and the header at a zeroed default is an assumption of the
  model.
- Thrift Compact decoding (`deserialize_thrift_msg`) is a parameter of the
  reader. Only the consumed length and `compressed_page_size` of the header
  are modelled, not its other fields.
- `config::parquet_header_max_size` is read from configuration by the code.
  Here it is a constructor argument, below 2^31 as its `int32` type requires.
  Its type is `nat`, so a negative configured value is not modelled.
- What makes the stream fail is not modelled: file-system errors and
  caching. A stream operation may fail at any time. `peek`'s view is the
  byte contents, and the lifetime of the borrowed memory is not modelled.
- The text of status messages is not modelled; statuses are compared by kind.
- On a failed decode, the Compact deserializer may have partly overwritten
  `_cur_header`. The model assigns the header only when decoding succeeds.
- `seek`'s own status is ignored by `peek`, and it is also ignored here: the
  model's `Seek` cannot fail.
- Parquet.PageReader.ReadBytes: the guard `offset + size` is `uint64`
  arithmetic. The model requires it not to overflow rather than modelling the
  wrapped comparison.
- Parquet.PageReader.SkipBytes: the same no-overflow precondition on
  `offset + size`.
- Parquet.PageReader.Peek: the same no-overflow precondition on
  `offset + size`.
- Parquet.PageReader.DecodeHeader: the model reserves the corrected buffer
  size, `HeaderBufferCapacity`, not the size the code reserves. See
  "Findings": the code as written can write past its reservation.
- The page size is not checked against the region. One might expect
  `compressed_page_size` to be validated against the region's finish offset. The code does not validate it, and the model follows the
  code (`ParquetProperties.PageSizeUncheckedAgainstRegion`).
- ParquetProperties.DecodeLoopFindsHeader: assumes 4 × cap < 2^32. Beyond
  that, a trial of 2^32 bytes or more is truncated in the 32-bit
  `header_length`, and a header the cap allows can be missed
  (`ParquetProperties.HugeTrialLengthTruncated`).
- Concurrency: the reader is single-threaded, and so is the model.

## Findings

| source | as written | input that shows it | evidently intended | confidence | as-written member | corrected member |
|---|---|---|---|---|---|---|
| be/src/formats/parquet/page_reader.cpp:38-48 | the header buffer is reserved at `parquet_header_max_size` bytes and written through its raw data pointer; the decode loop may read up to four times that (and always at least 1024) into it | `parquet_header_max_size` = 16384 and a region of 100000 bytes with no decodable header: the reads are 1024, 4096, 16384, 65536 bytes, and the last writes 49152 bytes past the reservation | reserve (or resize to) enough bytes for every trial, min(max(1024, 4 × cap), remaining) | not executed | ParquetProperties.ReservedBufferOverrun | ParquetProperties.CorrectedBufferFits |
