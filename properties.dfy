/** Properties of the page reader's specification: where the decode loop reads,
    how its trial size grows, when it finds a header and when it reports
    corruption, and how payload requests are accounted against the page. */
module ParquetProperties {
  import opened Common
  import opened ParquetThrift
  import opened Parquet

  /** The trial size after `i` quadruplings of `n`, that is n * 4^i. */
  function TrialSize(n: nat, i: nat): (r: nat)
    ensures r >= n
    decreases i
  {
    if i == 0 then n else TrialSize(4 * n, i - 1)
  }

  /** Every read of the decode loop covers [offset, offset + n) with
      0 < n <= finish - offset, and the loop goes on only while the trial size is
      within the cap and the region is not exhausted. */
  lemma {:induction false} DecodeLoopReadsInRegion(bytes: seq<Byte>, offset: nat, finish: nat,
                                                   maxHeaderSize: nat, decode: Decoder, nbytes: nat)
    requires offset < finish && 0 < nbytes && WellBehaved(decode)
    ensures var r := DecodeLoop(bytes, offset, finish, maxHeaderSize, decode, nbytes).readLengths;
      r[0] == Min(nbytes, finish - offset) &&
      (forall i :: 0 <= i < |r| ==> 0 < r[i] <= finish - offset) &&
      (forall i :: 0 <= i < |r| - 1 ==> r[i] <= maxHeaderSize && offset + r[i] < finish)
    decreases finish - offset - Min(nbytes, finish - offset)
  {
    var n := Min(nbytes, finish - offset);
    if AttemptAt(bytes, offset, finish, maxHeaderSize, decode, n).Retry? {
      DecodeLoopStep(bytes, offset, finish, maxHeaderSize, decode, nbytes);
      DecodeLoopReadsInRegion(bytes, offset, finish, maxHeaderSize, decode, n * 4);
      var t := DecodeLoop(bytes, offset, finish, maxHeaderSize, decode, nbytes).readLengths;
      var rest := DecodeLoop(bytes, offset, finish, maxHeaderSize, decode, n * 4).readLengths;
      assert t == [n] + rest;
      assert forall i :: 0 < i < |t| ==> t[i] == rest[i - 1];
    }
  }

  /** Every read of the decode loop is at most the first trial size or four
      times the cap. */
  lemma {:induction false} DecodeLoopReadsBounded(bytes: seq<Byte>, offset: nat, finish: nat,
                                                  maxHeaderSize: nat, decode: Decoder, nbytes: nat)
    requires offset < finish && 0 < nbytes && WellBehaved(decode)
    ensures var r := DecodeLoop(bytes, offset, finish, maxHeaderSize, decode, nbytes).readLengths;
      forall i :: 0 <= i < |r| ==> r[i] <= Max(nbytes, 4 * maxHeaderSize)
    decreases finish - offset - Min(nbytes, finish - offset)
  {
    var n := Min(nbytes, finish - offset);
    if AttemptAt(bytes, offset, finish, maxHeaderSize, decode, n).Retry? {
      DecodeLoopStep(bytes, offset, finish, maxHeaderSize, decode, nbytes);
      DecodeLoopReadsBounded(bytes, offset, finish, maxHeaderSize, decode, n * 4);
      var t := DecodeLoop(bytes, offset, finish, maxHeaderSize, decode, nbytes).readLengths;
      var rest := DecodeLoop(bytes, offset, finish, maxHeaderSize, decode, n * 4).readLengths;
      assert t == [n] + rest;
      assert forall i :: 0 < i < |t| ==> t[i] == rest[i - 1];
    }
  }

  /** Each way the decode loop stops has its cause in its last read: a header
      no longer than that read, a size over the cap or the end of the region,
      or a read past the end of the stream. */
  lemma {:induction false} DecodeLoopStopCause(bytes: seq<Byte>, offset: nat, finish: nat,
                                               maxHeaderSize: nat, decode: Decoder, nbytes: nat)
    requires offset < finish && 0 < nbytes && WellBehaved(decode)
    ensures var t := DecodeLoop(bytes, offset, finish, maxHeaderSize, decode, nbytes);
      (t.outcome.Found? ==> t.outcome.headerLength <= Last(t.readLengths)) &&
      (t.outcome.Corrupt? ==> Last(t.readLengths) > maxHeaderSize || offset + Last(t.readLengths) >= finish) &&
      (t.outcome.ShortRead? ==> offset + Last(t.readLengths) > |bytes|)
    decreases finish - offset - Min(nbytes, finish - offset)
  {
    var n := Min(nbytes, finish - offset);
    if AttemptAt(bytes, offset, finish, maxHeaderSize, decode, n).Retry? {
      DecodeLoopStep(bytes, offset, finish, maxHeaderSize, decode, nbytes);
      DecodeLoopStopCause(bytes, offset, finish, maxHeaderSize, decode, n * 4);
      var t := DecodeLoop(bytes, offset, finish, maxHeaderSize, decode, nbytes).readLengths;
      var rest := DecodeLoop(bytes, offset, finish, maxHeaderSize, decode, n * 4).readLengths;
      assert t == [n] + rest;
      assert Last(t) == Last(rest);
    }
  }

  /** The i-th read of the decode loop is min(nbytes * 4^i, remaining): the trial
      size quadruples on every failed attempt. */
  lemma {:induction false} DecodeLoopGeometric(bytes: seq<Byte>, offset: nat, finish: nat,
                                               maxHeaderSize: nat, decode: Decoder, nbytes: nat)
    requires offset < finish && 0 < nbytes && WellBehaved(decode)
    ensures var r := DecodeLoop(bytes, offset, finish, maxHeaderSize, decode, nbytes).readLengths;
      forall i :: 0 <= i < |r| ==> r[i] == Min(TrialSize(nbytes, i), finish - offset)
    decreases finish - offset - Min(nbytes, finish - offset)
  {
    var n := Min(nbytes, finish - offset);
    if AttemptAt(bytes, offset, finish, maxHeaderSize, decode, n).Retry? {
      DecodeLoopStep(bytes, offset, finish, maxHeaderSize, decode, nbytes);
      DecodeLoopGeometric(bytes, offset, finish, maxHeaderSize, decode, n * 4);
      var t := DecodeLoop(bytes, offset, finish, maxHeaderSize, decode, nbytes).readLengths;
      var rest := DecodeLoop(bytes, offset, finish, maxHeaderSize, decode, n * 4).readLengths;
      assert t == [n] + rest;
      forall i | 0 <= i < |t| ensures t[i] == Min(TrialSize(nbytes, i), finish - offset) {
        if i > 0 {
          assert t[i] == rest[i - 1];
          assert TrialSize(nbytes, i) == TrialSize(n * 4, i - 1);
        }
      }
    }
  }

  /** Each failed attempt is followed by a strictly larger read, and every attempt
      but the last had nbytes * 4^i within the cap, so the loop makes at most
      about log4(max / nbytes) + 2 reads. */
  lemma DecodeLoopGrowth(bytes: seq<Byte>, offset: nat, finish: nat,
                         maxHeaderSize: nat, decode: Decoder, nbytes: nat)
    requires offset < finish && 0 < nbytes && WellBehaved(decode)
    ensures var r := DecodeLoop(bytes, offset, finish, maxHeaderSize, decode, nbytes).readLengths;
      (forall i, j :: 0 <= i < j < |r| ==> r[i] < r[j]) &&
      (forall i :: 0 <= i < |r| - 1 ==> TrialSize(nbytes, i) <= maxHeaderSize)
  {
    DecodeLoopReadsInRegion(bytes, offset, finish, maxHeaderSize, decode, nbytes);
    DecodeLoopGeometric(bytes, offset, finish, maxHeaderSize, decode, nbytes);
    var r := DecodeLoop(bytes, offset, finish, maxHeaderSize, decode, nbytes).readLengths;
    forall i, j | 0 <= i < j < |r| ensures r[i] < r[j] {
      TrialSizeGrows(nbytes, i, j);
    }
  }

  lemma {:induction false} TrialSizeGrows(n: nat, i: nat, j: nat)
    requires 0 < n && i < j
    ensures TrialSize(n, i) < TrialSize(n, j)
    decreases i
  {
    if i > 0 {
      TrialSizeGrows(4 * n, i - 1, j - 1);
    }
  }

  /** The buffer a reader reserves for header decoding as the source writes it:
      `config::parquet_header_max_size` bytes. */
  function AsWrittenCapacity(maxHeaderSize: nat): nat
  {
    maxHeaderSize
  }

  ghost predicate FitsBuffer(readLengths: seq<nat>, capacity: nat)
  {
    forall i :: 0 <= i < |readLengths| ==> readLengths[i] <= capacity
  }

  /** A region with no header in it. */
  function Zeros(n: nat): (s: seq<Byte>)
    ensures |s| == n
  {
    seq(n, _ => 0 as Byte)
  }

  /** A deserializer that never finds a header. */
  const NeverDecodes: Decoder := _ => None

  /** With the default cap of 16384 bytes and a 100000-byte region holding no
      header, the fourth read is 65536 bytes: four times the reserved buffer. */
  lemma ReservedBufferOverrun()
    ensures WellBehaved(NeverDecodes)
    ensures DecodeLoop(Zeros(100000), 0, 100000, 16384, NeverDecodes, HeaderInitSize)
            == LoopTrace(Corrupt, [1024, 4096, 16384, 65536])
    ensures !FitsBuffer([1024, 4096, 16384, 65536], AsWrittenCapacity(16384))
  {
    var bytes, decode := Zeros(100000), NeverDecodes;
    assert DecodeLoop(bytes, 0, 100000, 16384, decode, 65536) == LoopTrace(Corrupt, [65536]);
    assert DecodeLoop(bytes, 0, 100000, 16384, decode, 16384) == LoopTrace(Corrupt, [16384, 65536]);
    assert DecodeLoop(bytes, 0, 100000, 16384, decode, 4096) == LoopTrace(Corrupt, [4096, 16384, 65536]);
    assert DecodeLoop(bytes, 0, 100000, 16384, decode, 1024) == LoopTrace(Corrupt, [1024, 4096, 16384, 65536]);
    assert [1024, 4096, 16384, 65536][3] > AsWrittenCapacity(16384);
  }

  /** Every read of the decode loop fits the buffer of `HeaderBufferCapacity`
      bytes that `PageReader.DecodeHeader` reserves. */
  lemma CorrectedBufferFits(bytes: seq<Byte>, offset: nat, finish: nat,
                            maxHeaderSize: nat, decode: Decoder)
    requires offset < finish && WellBehaved(decode)
    ensures FitsBuffer(DecodeLoop(bytes, offset, finish, maxHeaderSize, decode, HeaderInitSize).readLengths,
                       HeaderBufferCapacity(maxHeaderSize, finish - offset))
  {
    DecodeLoopReadsInRegion(bytes, offset, finish, maxHeaderSize, decode, HeaderInitSize);
    DecodeLoopReadsBounded(bytes, offset, finish, maxHeaderSize, decode, HeaderInitSize);
  }

  /** When the header at `offset` occupies at most the cap, the decode loop finds
      it (possibly after retries) and reports the same header and length as one
      decode of the whole rest of the region would. */
  lemma {:induction false} DecodeLoopFindsHeader(bytes: seq<Byte>, offset: nat, finish: nat,
                                                 maxHeaderSize: nat, decode: Decoder, nbytes: nat)
    requires offset < finish <= |bytes| && 0 < nbytes < U32 && 4 * maxHeaderSize < U32
    requires WellBehaved(decode) && SelfDelimiting(decode)
    requires decode(bytes[offset..finish]).Some?
    requires decode(bytes[offset..finish]).value.consumed <= maxHeaderSize
    ensures var d := decode(bytes[offset..finish]).value;
      DecodeLoop(bytes, offset, finish, maxHeaderSize, decode, nbytes).outcome == Found(d.header, d.consumed)
    decreases finish - offset - Min(nbytes, finish - offset)
  {
    var whole := bytes[offset..finish];
    var d := decode(whole).value;
    var n := Min(nbytes, finish - offset);
    var buf := bytes[offset..offset + n];
    assert Trunc32(n) == n;
    DecodeLoopStep(bytes, offset, finish, maxHeaderSize, decode, nbytes);
    if decode(buf).Some? {
      var e := decode(buf).value;
      assert buf[..e.consumed] == whole[..e.consumed];
      assert SharesHeader(decode, buf, whole);
    } else {
      if d.consumed <= n {
        assert whole[..d.consumed] == bytes[offset..offset + d.consumed] == buf[..d.consumed];
        assert SharesHeader(decode, whole, buf);
      }
      assert n < d.consumed <= finish - offset;
      DecodeLoopFindsHeader(bytes, offset, finish, maxHeaderSize, decode, n * 4);
    }
  }

  /** The length of a header just over 2^30 bytes. */
  const LongHeaderLength: nat := 0x4000_0001

  /** A deserializer that finds a header of `LongHeaderLength` bytes in any
      buffer at least that long. */
  const LongHeaderDecoder: Decoder :=
    buf => if |buf| >= LongHeaderLength then Some(Decoded(DefaultHeader, LongHeaderLength)) else None

  /** `DecodeLoopFindsHeader` needs 4 * cap < 2^32: with a cap of 2^30 + 1 and a
      region of 2^32 + 1 bytes holding a header of 2^30 + 1 bytes, the loop
      quadruples past 2^30 to a read of 2^32 bytes, whose length truncates to 0
      in the 32-bit `header_length`, so the decoder sees no bytes, and the read
      is over the cap: corruption, although the header is within the cap. */
  lemma HugeTrialLengthTruncated()
    ensures WellBehaved(LongHeaderDecoder) && SelfDelimiting(LongHeaderDecoder)
    ensures var bytes := Zeros(U32 + 1);
      LongHeaderDecoder(bytes[0..U32 + 1]) == Some(Decoded(DefaultHeader, LongHeaderLength)) &&
      DecodeLoop(bytes, 0, U32 + 1, LongHeaderLength, LongHeaderDecoder, HeaderInitSize).outcome == Corrupt
  {
    var bytes, finish, cap, decode := Zeros(U32 + 1), U32 + 1, LongHeaderLength, LongHeaderDecoder;
    assert Trunc32(U32) == 0;
    assert DecodeLoop(bytes, 0, finish, cap, decode, U32).outcome == Corrupt;
    var n: nat := U32;
    while n > HeaderInitSize
      invariant n in {1024, 4096, 16384, 65536, 262144, 1048576, 4194304,
                      16777216, 67108864, 268435456, 1073741824, 4294967296}
      invariant DecodeLoop(bytes, 0, finish, cap, decode, n).outcome == Corrupt
      decreases n
    {
      n := n / 4;
      DecodeLoopStep(bytes, 0, finish, cap, decode, n);
    }
  }

  /** `next_header` succeeds on a header of at most the cap, with the cursor just
      past it and the next header expected after its payload. */
  lemma NextHeaderFindsHeader(bytes: seq<Byte>, finish: nat, maxHeaderSize: nat, decode: Decoder, c: Cursor)
    requires c.offset == c.nextHeaderPos && c.offset < finish <= |bytes| && 4 * maxHeaderSize < U32
    requires WellBehaved(decode) && SelfDelimiting(decode)
    requires decode(bytes[c.offset..finish]).Some?
    requires decode(bytes[c.offset..finish]).value.consumed <= maxHeaderSize
    ensures var d := decode(bytes[c.offset..finish]).value;
      var o := c.offset + d.consumed;
      NextHeaderSpec(bytes, finish, maxHeaderSize, decode, c)
      == Step(Ok, Cursor(o, Wrap64(o + d.header.compressedPageSize as int), d.header))
  {
    DecodeLoopFindsHeader(bytes, c.offset, finish, maxHeaderSize, decode, HeaderInitSize);
  }

  /** A region that starts no complete header within the bytes the loop can
      look at, max(nbytes, 4 * cap) clamped to the region, makes the decode loop
      stop with corruption, not loop forever and not fail with an I/O error. */
  lemma {:induction false} DecodeLoopRejectsGarbage(bytes: seq<Byte>, offset: nat, finish: nat,
                                                    maxHeaderSize: nat, decode: Decoder, nbytes: nat)
    requires offset < finish <= |bytes| && 0 < nbytes && WellBehaved(decode)
    requires forall k :: 0 <= k <= Min(Max(nbytes, 4 * maxHeaderSize), finish - offset) ==>
               decode(bytes[offset..finish][..k]).None?
    ensures DecodeLoop(bytes, offset, finish, maxHeaderSize, decode, nbytes).outcome == Corrupt
    decreases finish - offset - Min(nbytes, finish - offset)
  {
    var n := Min(nbytes, finish - offset);
    assert bytes[offset..offset + Trunc32(n)] == bytes[offset..finish][..Trunc32(n)];
    if n <= maxHeaderSize && offset + n < finish {
      DecodeLoopRejectsGarbage(bytes, offset, finish, maxHeaderSize, decode, n * 4);
    }
  }

  /** `next_header` on a region that starts no header within the bytes the
      reader reserves for decoding reports corruption and leaves the cursor. */
  lemma NextHeaderRejectsGarbage(bytes: seq<Byte>, finish: nat, maxHeaderSize: nat, decode: Decoder, c: Cursor)
    requires c.offset == c.nextHeaderPos && c.offset < finish <= |bytes| && WellBehaved(decode)
    requires forall k :: 0 <= k <= HeaderBufferCapacity(maxHeaderSize, finish - c.offset) ==>
               decode(bytes[c.offset..finish][..k]).None?
    ensures NextHeaderSpec(bytes, finish, maxHeaderSize, decode, c) == Step(Corruption, c)
  {
    DecodeLoopRejectsGarbage(bytes, c.offset, finish, maxHeaderSize, decode, HeaderInitSize);
  }

  /** A sequence of `read_bytes`/`skip_bytes`/`peek` requests, stopping at the
      first refused one. */
  function ConsumeAll(c: Cursor, sizes: seq<nat>): (r: Step)
    ensures r.cursor.nextHeaderPos == c.nextHeaderPos && r.cursor.header == c.header
    decreases |sizes|
  {
    if sizes == [] then Step(Ok, c)
    else
      var s := Consume(c, sizes[0]);
      if s.status != Ok then s else ConsumeAll(s.cursor, sizes[1..])
  }

  function Sum(sizes: seq<nat>): (r: nat)
    ensures sizes != [] ==> sizes[0] <= r
    decreases |sizes|
  {
    if sizes == [] then 0 else sizes[0] + Sum(sizes[1..])
  }

  /** Payload requests succeed exactly when their total stays within the page;
      they move only the offset, never backwards, and never past the next header. */
  lemma {:induction false} ConsumeAllWithinPage(c: Cursor, sizes: seq<nat>)
    requires c.offset <= c.nextHeaderPos
    ensures var r := ConsumeAll(c, sizes);
      (r.status == Ok <==> c.offset + Sum(sizes) <= c.nextHeaderPos) &&
      (r.status == Ok || r.status == InternalError) &&
      (r.status == Ok ==> r.cursor == c.(offset := c.offset + Sum(sizes))) &&
      c.offset <= r.cursor.offset <= r.cursor.nextHeaderPos == c.nextHeaderPos &&
      r.cursor.header == c.header
    decreases |sizes|
  {
    if sizes != [] {
      var s := Consume(c, sizes[0]);
      if s.status == Ok {
        ConsumeAllWithinPage(s.cursor, sizes[1..]);
      }
    }
  }

  /** After a successful `next_header` whose header declares a payload of p >= 0
      bytes, consuming exactly p bytes succeeds and puts the cursor on the next
      header, so the next `next_header` passes its position check; one byte more
      is refused. Payload left unconsumed makes `next_header` a protocol violation. */
  lemma PayloadExactlyConsumed(bytes: seq<Byte>, finish: nat, maxHeaderSize: nat, decode: Decoder, c: Cursor)
    requires WellBehaved(decode)
    requires var s := NextHeaderSpec(bytes, finish, maxHeaderSize, decode, c);
      s.status == Ok && s.cursor.header.compressedPageSize >= 0 &&
      s.cursor.offset + s.cursor.header.compressedPageSize as int < U64
    ensures var s := NextHeaderSpec(bytes, finish, maxHeaderSize, decode, c).cursor;
      var p := s.header.compressedPageSize as nat;
      s.nextHeaderPos == s.offset + p &&
      Consume(s, p) == Step(Ok, s.(offset := s.nextHeaderPos)) &&
      Consume(s, p + 1) == Step(InternalError, s) &&
      (forall k :: 0 <= k < p ==>
         NextHeaderSpec(bytes, finish, maxHeaderSize, decode, Consume(s, k).cursor).status == InternalError)
  {
  }

  /** A 100-byte region whose first byte starts a 20-byte header. */
  function ScenarioBytes(): (s: seq<Byte>)
    ensures |s| == 100
  {
    [1] + Zeros(99)
  }

  /** A deserializer that finds a 20-byte header declaring `pageSize` payload
      bytes in any buffer of at least 20 bytes starting with byte 1. */
  function HeaderOfSize(pageSize: Int32): Decoder
  {
    buf => if |buf| >= 20 && buf[0] == 1 then Some(Decoded(PageHeader(pageSize), 20)) else None
  }

  /** Region [0, 100) with a 20-byte header at 0 declaring 50 payload bytes:
      `next_header` leaves the cursor at 20 and expects the next header at 70;
      reading the 50 payload bytes brings the cursor to 70; there the remaining
      30 bytes hold no header and `next_header` reports corruption. */
  lemma HeaderThenPayloadThenCorruption()
    ensures WellBehaved(HeaderOfSize(50))
    ensures var h := PageHeader(50);
      NextHeaderSpec(ScenarioBytes(), 100, 16384, HeaderOfSize(50), Cursor(0, 0, DefaultHeader))
        == Step(Ok, Cursor(20, 70, h)) &&
      Consume(Cursor(20, 70, h), 50) == Step(Ok, Cursor(70, 70, h)) &&
      NextHeaderSpec(ScenarioBytes(), 100, 16384, HeaderOfSize(50), Cursor(70, 70, h))
        == Step(Corruption, Cursor(70, 70, h))
  {
    var bytes, decode := ScenarioBytes(), HeaderOfSize(50);
    assert bytes[0..100][0] == 1;
    assert DecodeLoop(bytes, 0, 100, 16384, decode, HeaderInitSize).outcome == Found(PageHeader(50), 20);
    assert bytes[70..100][0] == 0;
    assert DecodeLoop(bytes, 70, 100, 16384, decode, HeaderInitSize).outcome == Corrupt;
  }

  /** The declared payload size is not checked against the region: a header
      declaring 500 bytes in a 100-byte region lets the payload requests run to
      offset 520, and one declaring -50 wraps the next-header position to
      2^64 - 30, far past the region. */
  lemma PageSizeUncheckedAgainstRegion()
    ensures WellBehaved(HeaderOfSize(500)) && WellBehaved(HeaderOfSize(-50))
    ensures var s := NextHeaderSpec(ScenarioBytes(), 100, 16384, HeaderOfSize(500), Cursor(0, 0, DefaultHeader));
      s == Step(Ok, Cursor(20, 520, PageHeader(500))) &&
      Consume(s.cursor, 500) == Step(Ok, Cursor(520, 520, PageHeader(500)))
    ensures var s := NextHeaderSpec(ScenarioBytes(), 100, 16384, HeaderOfSize(-50), Cursor(0, 0, DefaultHeader));
      s == Step(Ok, Cursor(20, U64 - 30, PageHeader(-50))) &&
      Consume(s.cursor, 1000).status == Ok
  {
    var bytes := ScenarioBytes();
    assert bytes[0..100][0] == 1;
    assert DecodeLoop(bytes, 0, 100, 16384, HeaderOfSize(500), HeaderInitSize).outcome == Found(PageHeader(500), 20);
    assert DecodeLoop(bytes, 0, 100, 16384, HeaderOfSize(-50), HeaderInitSize).outcome == Found(PageHeader(-50), 20);
  }
}
