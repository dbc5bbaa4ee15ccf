/** The Parquet column-chunk page reader: it walks the byte region
    [start offset, finish offset) of a stream, decoding one Thrift page header at
    a time and handing out the payload that follows each header.

    The pure functions below say what each operation does to the reader's cursor
    when the stream itself does not fail; the `PageReader` class is proved to
    follow them, or to fail with `IOError` and change nothing. */
module Parquet {
  import opened Common
  import opened ParquetThrift
  import opened Io

  /** The first trial size of the adaptive header decode. */
  const HeaderInitSize: nat := 1024

  /** The reader's cursor fields: `_offset`, `_next_header_pos` and `_cur_header`. */
  datatype Cursor = Cursor(offset: nat, nextHeaderPos: nat, header: PageHeader)

  /** The result of an operation: its status and the cursor afterwards. */
  datatype Step = Step(status: Status, cursor: Cursor)

  /** How one run of the adaptive decode loop ends. */
  datatype Attempt = Found(header: PageHeader, headerLength: nat) | Corrupt | ShortRead

  /** The outcome of the decode loop, with the length of every read it issued. */
  datatype LoopTrace = LoopTrace(outcome: Attempt, readLengths: seq<nat>)

  function Last(s: seq<nat>): nat
    requires |s| > 0
  {
    s[|s| - 1]
  }

  /** What one attempt of the decode loop leads to. */
  datatype Try = Done(outcome: Attempt) | Retry

  /** One attempt of the decode loop with the clamped size `n`: read `n` bytes at
      `offset`, try to decode them (the decoder is given the length truncated to
      32 bits, as `header_length` is a `uint32_t`), and on failure give up when
      the size is over the cap or the region is exhausted. */
  function AttemptAt(bytes: seq<Byte>, offset: nat, finish: nat, maxHeaderSize: nat,
                     decode: Decoder, n: nat): (r: Try)
    ensures r == Done(ShortRead) <==> offset + n > |bytes|
    ensures r.Done? && r.outcome.Found? ==>
      offset + n <= |bytes| && decode(bytes[offset..offset + Trunc32(n)]).Some?
    ensures r == Done(Corrupt) ==> n > maxHeaderSize || offset + n >= finish
    ensures r == Retry <==>
      offset + n <= |bytes| && decode(bytes[offset..offset + Trunc32(n)]).None? &&
      n <= maxHeaderSize && offset + n < finish
  {
    if offset + n > |bytes| then
      Done(ShortRead)
    else
      match decode(bytes[offset..offset + Trunc32(n)])
      case Some(d) => Done(Found(d.header, d.consumed))
      case None =>
        if n > maxHeaderSize || offset + n >= finish then Done(Corrupt) else Retry
  }

  /** The adaptive-length decode loop of `next_header`, entered with trial size
      `nbytes`: clamp the size to what remains of the region, make an attempt,
      and after a failed one within the bounds retry with four times the size. */
  function DecodeLoop(bytes: seq<Byte>, offset: nat, finish: nat, maxHeaderSize: nat,
                      decode: Decoder, nbytes: nat): (r: LoopTrace)
    requires offset < finish && 0 < nbytes
    requires WellBehaved(decode)
    ensures |r.readLengths| > 0
    ensures r.outcome.Found? ==> r.outcome.headerLength <= finish - offset
    decreases finish - offset - Min(nbytes, finish - offset)
  {
    var n := Min(nbytes, finish - offset);
    match AttemptAt(bytes, offset, finish, maxHeaderSize, decode, n)
    case Done(a) => LoopTrace(a, [n])
    case Retry =>
      var rest := DecodeLoop(bytes, offset, finish, maxHeaderSize, decode, n * 4);
      LoopTrace(rest.outcome, [n] + rest.readLengths)
  }

  /** The outcome of `DecodeLoop` is that of its first attempt, or of the retry. */
  lemma DecodeLoopStep(bytes: seq<Byte>, offset: nat, finish: nat, maxHeaderSize: nat,
                       decode: Decoder, nbytes: nat)
    requires offset < finish && 0 < nbytes && WellBehaved(decode)
    ensures var n := Min(nbytes, finish - offset);
      var t := DecodeLoop(bytes, offset, finish, maxHeaderSize, decode, nbytes).outcome;
      match AttemptAt(bytes, offset, finish, maxHeaderSize, decode, n)
      case Done(a) => t == a
      case Retry => 0 < n <= maxHeaderSize && offset + n < finish &&
                    t == DecodeLoop(bytes, offset, finish, maxHeaderSize, decode, n * 4).outcome
  {
  }

  /** The first `k` bytes of a buffer that holds `bytes[start..start + n]`. */
  lemma SlicePrefix(buf: seq<Byte>, bytes: seq<Byte>, start: nat, n: nat, k: nat)
    requires k <= n <= |buf| && start + n <= |bytes|
    requires buf[..n] == bytes[start..start + n]
    ensures buf[..k] == bytes[start..start + k]
  {
    assert buf[..k] == buf[..n][..k];
  }

  /** `next_header` on cursor `c`, when the stream does not fail spuriously. */
  function NextHeaderSpec(bytes: seq<Byte>, finish: nat, maxHeaderSize: nat, decode: Decoder,
                          c: Cursor): (r: Step)
    requires WellBehaved(decode)
    ensures c.offset != c.nextHeaderPos ==> r == Step(InternalError, c)
    ensures c.offset == c.nextHeaderPos && c.offset >= finish ==> r == Step(EndOfFile, c)
    ensures r.status != Ok ==> r.cursor == c
    ensures r.status == Ok ==>
      c.offset == c.nextHeaderPos && c.offset <= r.cursor.offset <= finish &&
      r.cursor.nextHeaderPos == Wrap64(r.cursor.offset + r.cursor.header.compressedPageSize as int)
  {
    if c.offset != c.nextHeaderPos then
      Step(InternalError, c)
    else if c.offset >= finish then
      Step(EndOfFile, c)
    else
      match DecodeLoop(bytes, c.offset, finish, maxHeaderSize, decode, HeaderInitSize).outcome
      case Found(h, len) =>
        var o := c.offset + len;
        Step(Ok, Cursor(o, Wrap64(o + h.compressedPageSize as int), h))
      case Corrupt => Step(Corruption, c)
      case ShortRead => Step(IOError, c)
  }

  /** The guard and cursor update shared by `read_bytes`, `skip_bytes` and `peek`:
      a request that would cross the next header is refused. */
  function Consume(c: Cursor, size: nat): (r: Step)
    ensures r.status == Ok || r.status == InternalError
    ensures r.status == Ok <==> c.offset + size <= c.nextHeaderPos
    ensures r.cursor.offset == (if r.status == Ok then c.offset + size else c.offset)
    ensures r.cursor.nextHeaderPos == c.nextHeaderPos && r.cursor.header == c.header
    ensures c.offset <= c.nextHeaderPos ==> r.cursor.offset <= c.nextHeaderPos
  {
    if c.offset + size > c.nextHeaderPos then
      Step(InternalError, c)
    else
      Step(Ok, c.(offset := c.offset + size))
  }

  /** The buffer size the reader reserves for header decoding: enough for every
      read of the decode loop (see `ParquetProperties.CorrectedBufferFits`). */
  function HeaderBufferCapacity(maxHeaderSize: nat, remaining: nat): (r: nat)
    ensures r <= remaining
    ensures r == remaining || (r >= HeaderInitSize && r >= 4 * maxHeaderSize)
  {
    Min(Max(HeaderInitSize, 4 * maxHeaderSize), remaining)
  }

  class PageReader {
    const stream: SeekableInputStream
    const finishOffset: nat
    /** `config::parquet_header_max_size`. */
    const maxHeaderSize: nat
    /** `deserialize_thrift_msg` with the Compact protocol. */
    const decode: Decoder
    var offset: nat
    var nextHeaderPos: nat
    var curHeader: PageHeader

    /** All positions fit in `uint64_t`, the cap in the config's `int32`, and the
        decoder keeps its contract. */
    ghost predicate Valid()
      reads this
    {
      finishOffset < U64 && offset < U64 && nextHeaderPos < U64 &&
      maxHeaderSize < 0x8000_0000 && WellBehaved(decode)
    }

    function State(): Cursor
      reads this
    {
      Cursor(offset, nextHeaderPos, curHeader)
    }

    /** The reader over [startOffset, startOffset + length) of `stream`; the cursor
        and the next-header position both start at `startOffset`. */
    constructor (stream: SeekableInputStream, startOffset: nat, length: nat,
                 maxHeaderSize: nat, decode: Decoder)
      requires startOffset < U64 && length < U64
      requires maxHeaderSize < 0x8000_0000
      requires WellBehaved(decode)
      ensures Valid()
      ensures this.stream == stream && finishOffset == Wrap64(startOffset + length)
      ensures this.maxHeaderSize == maxHeaderSize && this.decode == decode
      ensures State() == Cursor(startOffset, startOffset, DefaultHeader)
    {
      this.stream := stream;
      finishOffset := Wrap64(startOffset + length);
      this.maxHeaderSize := maxHeaderSize;
      this.decode := decode;
      offset := startOffset;
      nextHeaderPos := startOffset;
      curHeader := DefaultHeader;
    }

    /** Decodes the header at the cursor. */
    method NextHeader() returns (st: Status)
      requires Valid()
      modifies this
      ensures Valid()
      ensures st != IOError ==>
        Step(st, State()) == NextHeaderSpec(stream.bytes, finishOffset, maxHeaderSize, decode, old(State()))
      ensures st == IOError ==>
        old(offset) == old(nextHeaderPos) && old(offset) < finishOffset && State() == old(State())
    {
      if offset != nextHeaderPos {
        return InternalError;
      }
      if offset >= finishOffset {
        return EndOfFile;
      }
      var header, headerLength;
      st, header, headerLength := DecodeHeader();
      if st != Ok {
        return st;
      }
      ghost var o := offset + headerLength;
      assert NextHeaderSpec(stream.bytes, finishOffset, maxHeaderSize, decode, State())
          == Step(Ok, Cursor(o, Wrap64(o + header.compressedPageSize as int), header));
      curHeader := header;
      offset := offset + headerLength;
      nextHeaderPos := Wrap64(offset + curHeader.compressedPageSize as int);
    }

    /** The adaptive-length decode loop of `next_header`, run at the cursor; it
        reads the stream and changes no field. */
    method DecodeHeader() returns (st: Status, header: PageHeader, headerLength: nat)
      requires Valid() && offset < finishOffset
      ensures st == Ok || st == Corruption || st == IOError
      ensures st != IOError ==>
        var spec := DecodeLoop(stream.bytes, offset, finishOffset, maxHeaderSize, decode, HeaderInitSize).outcome;
        if st == Ok then spec == Found(header, headerLength) else spec == Corrupt
    {
      var start, remaining := offset, finishOffset - offset;
      var pageBuf := new Byte[HeaderBufferCapacity(maxHeaderSize, remaining)];
      var nbytes := HeaderInitSize;
      header, headerLength := DefaultHeader, 0;
      ghost var spec := DecodeLoop(stream.bytes, start, finishOffset, maxHeaderSize, decode, HeaderInitSize).outcome;
      while true
        invariant 0 < nbytes && (nbytes == HeaderInitSize || nbytes <= 4 * maxHeaderSize)
        invariant DecodeLoop(stream.bytes, start, finishOffset, maxHeaderSize, decode, nbytes).outcome == spec
        decreases remaining - Min(nbytes, remaining)
      {
        DecodeLoopStep(stream.bytes, start, finishOffset, maxHeaderSize, decode, nbytes);
        nbytes := Min(nbytes, remaining);
        var rs, next := Attempt(start, pageBuf, nbytes);
        if rs != Ok {
          return rs, header, headerLength;
        }
        match next
        case Done(Found(h, len)) => return Ok, h, len;
        case Done(_) => return Corruption, header, headerLength;
        case Retry => nbytes := nbytes * 4;
      }
    }

    /** One attempt of the decode loop at `start` with `nbytes` bytes, reading
        into `pageBuf`: what `AttemptAt` says, or an I/O error. */
    method Attempt(start: nat, pageBuf: array<Byte>, nbytes: nat) returns (st: Status, next: Try)
      requires nbytes <= pageBuf.Length
      modifies pageBuf
      ensures st == Ok || st == IOError
      ensures st == Ok ==>
        next == AttemptAt(stream.bytes, start, finishOffset, maxHeaderSize, decode, nbytes) &&
        next != Done(ShortRead)
    {
      next := Retry;
      st := stream.ReadAtFully(start, pageBuf, nbytes);
      if st != Ok {
        return;
      }
      var headerLength := Trunc32(nbytes);
      SlicePrefix(pageBuf[..], stream.bytes, start, nbytes, headerLength);
      var res := decode(pageBuf[..headerLength]);
      if res.Some? {
        return Ok, Done(Found(res.value.header, res.value.consumed));
      }
      if nbytes > maxHeaderSize || start + nbytes >= finishOffset {
        return Ok, Done(Corrupt);
      }
    }

    /** Copies `size` payload bytes at the cursor into `buffer`. */
    method ReadBytes(buffer: array<Byte>, size: nat) returns (st: Status)
      requires Valid() && size <= buffer.Length
      requires offset + size < U64
      modifies `offset, buffer
      ensures Valid()
      ensures st != IOError ==> Step(st, State()) == Consume(old(State()), size)
      ensures st == IOError ==> Consume(old(State()), size).status == Ok && State() == old(State())
      ensures st == Ok ==>
        old(offset) + size <= |stream.bytes| && buffer[..size] == stream.bytes[old(offset)..old(offset) + size]
      ensures old(offset) + size > |stream.bytes| ==> st != Ok
      ensures buffer[size..] == old(buffer[size..])
      ensures st == InternalError ==> buffer[..] == old(buffer[..])
    {
      if offset + size > nextHeaderPos {
        return InternalError;
      }
      st := stream.ReadAtFully(offset, buffer, size);
      if st != Ok {
        return st;
      }
      offset := offset + size;
    }

    /** Moves the cursor past `size` payload bytes without any I/O. */
    method SkipBytes(size: nat) returns (st: Status)
      requires Valid()
      requires offset + size < U64
      modifies `offset
      ensures Valid()
      ensures Step(st, State()) == Consume(old(State()), size)
    {
      if offset + size > nextHeaderPos {
        return InternalError;
      }
      offset := offset + size;
      st := Ok;
    }

    /** A view of the `size` payload bytes at the cursor, taken from the stream
        after seeking it to the cursor; the cursor moves only if the stream's
        peek succeeds. */
    method Peek(size: nat) returns (st: Status, view: seq<Byte>)
      requires Valid()
      requires offset + size < U64
      modifies `offset, stream`position
      ensures Valid()
      ensures st != IOError ==> Step(st, State()) == Consume(old(State()), size)
      ensures st == IOError ==> Consume(old(State()), size).status == Ok && State() == old(State())
      ensures Consume(old(State()), size).status == Ok ==> stream.position == old(offset)
      ensures Consume(old(State()), size).status != Ok ==> stream.position == old(stream.position)
      ensures st == Ok ==>
        old(offset) + size <= |stream.bytes| && view == stream.bytes[old(offset)..old(offset) + size]
      ensures old(offset) + size > |stream.bytes| ==> st != Ok
    {
      view := [];
      if offset + size > nextHeaderPos {
        return InternalError, view;
      }
      stream.Seek(offset);
      st, view := stream.Peek(size);
      if st != Ok {
        return st, view;
      }
      // advance the cursor only when the peek succeeded
      offset := offset + size;
    }
  }
}
