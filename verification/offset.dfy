/**
 * deserializeFrom(TsFileInput, offset): a whole header read at a file offset in two reads.
 * The first read fetches a fixed probe holding the marker and the id's length. The second
 * fetches the id and a worst-case tail, sized from that length with Java int arithmetic.
 * The caller's I/O recorder is told the probe bytes consumed plus the size of the second read.
 */
module OffsetRead {
  import opened Results
  import opened VarInt
  import opened ByteIO
  import opened ChunkLayout
  import opened Counters
  import opened Streams

  /** The first read: the marker and room for a zig-zag varint of up to five bytes. */
  const PROBE_BYTES: nat := TAG_BYTES + INT_BYTES + 1

  /** The worst-case bytes after the id: a dataSize varint of up to five bytes and the three tags. */
  const TAIL_ALLOWANCE: nat := INT_BYTES + 1 + 3 * TAG_BYTES

  /**
   * The size of the second read, computed as a Java int: id lengths in the last eight values
   * below 2^31 wrap past the largest int to a negative size.
   */
  function RemainingBytes(strLength: int32): (r: int32)
    ensures strLength <= INT32_MAX - TAIL_ALLOWANCE ==> r == strLength + TAIL_ALLOWANCE
    ensures strLength > INT32_MAX - TAIL_ALLOWANCE ==> r < 0
  {
    if strLength <= INT32_MAX - TAIL_ALLOWANCE then strLength + TAIL_ALLOWANCE
    else strLength + TAIL_ALLOWANCE - 0x1_0000_0000
  }

  /**
   * allocate is asked for a negative size exactly when the decoded length is below -8, or so
   * close to the largest int that the sum wraps.
   */
  lemma RemainingBytesNegative(strLength: int32)
    ensures RemainingBytes(strLength) < 0 <==> strLength + TAIL_ALLOWANCE < 0 || strLength > INT32_MAX - TAIL_ALLOWANCE
  {
  }

  /** RemainingBytes is the int sum the code computes, wrap-around included. */
  lemma RemainingBytesWraps(strLength: int32)
    ensures RemainingBytes(strLength) == Wrap32(strLength + TAIL_ALLOWANCE)
  {
  }

  /** What the first read yields: the chunk type, the id's length and the probe bytes used. */
  datatype Probe = Probe(chunkType: byte, strLength: int32, alreadyRead: nat)

  /** The marker and the id's length, read from the probe fetched at offset. */
  function ReadProbe(file: seq<byte>, offset: nat): (r: Result<Probe>)
    ensures r.Ok? ==> TAG_BYTES < r.value.alreadyRead <= PROBE_BYTES
  {
    var probe := ReadAt(file, offset, PROBE_BYTES);
    var marker :- ReadByte(probe, 0);
    var len :- ReadVarInt(probe, marker.next);
    Ok(Probe(marker.value, len.value, len.next))
  }

  /**
   * What the I/O recorder is given: the probe bytes used plus the size of the second read.
   * There is none when the probe fails or the second read's size is negative.
   */
  function RecordedSize(file: seq<byte>, offset: nat): (r: Result<nat>)
    ensures r.Ok? <==> ReadProbe(file, offset).Ok? && 0 <= RemainingBytes(ReadProbe(file, offset).value.strLength)
  {
    var p :- ReadProbe(file, offset);
    var remaining := RemainingBytes(p.strLength);
    if remaining < 0 then Err(BadBufferSize) else Ok(p.alreadyRead + remaining)
  }

  /**
   * The header after the id's length: an id of strLength bytes at pos, then the tail. The
   * chunk type is the one read before.
   */
  function DecodeRest(chunkType: byte, strLength: int32, s: seq<byte>, pos: nat): (r: Result<Parsed<HeaderFields>>)
    ensures r.Ok? ==> r.value.value.chunkType == chunkType && |r.value.value.measurementID| == strLength
    ensures r.Ok? ==> pos + strLength + 1 + 3 * TAG_BYTES <= r.value.next <= |s|
    ensures r.Ok? ==> r.value.next <= pos + strLength + TAIL_ALLOWANCE
  {
    var id :- ReadStringWithLength(s, pos, strLength);
    var tail :- DecodeTail(s, id.next);
    var t := tail.value;
    Ok(Parsed(HeaderFields(chunkType, id.value, t.dataSize, t.dataType, t.compressionType, t.encodingType), tail.next))
  }

  /**
   * The header at offset, decoded from the two reads. On success, next is the offset plus
   * the header size the code computes: the probe bytes used and the second read's bytes used.
   */
  function OffsetDecode(file: seq<byte>, offset: nat): (r: Result<Parsed<HeaderFields>>)
    ensures r.Ok? ==> offset + 2 + |r.value.value.measurementID| + 1 + 3 * TAG_BYTES <= r.value.next <= |file|
    ensures r.Ok? ==> r.value.next <= offset + PROBE_BYTES + |r.value.value.measurementID| + TAIL_ALLOWANCE
  {
    DecodeSecondRead(file, offset, ReadProbe(file, offset))
  }

  /**
   * What follows the probe: the size check on the second read, then the id and the tail
   * decoded from it, with positions in it shifted to file positions.
   */
  function DecodeSecondRead(file: seq<byte>, offset: nat, probe: Result<Probe>): (r: Result<Parsed<HeaderFields>>)
    ensures r.Ok? ==> probe.Ok? && 0 <= RemainingBytes(probe.value.strLength)
    ensures r.Ok? ==> r.value.value.chunkType == probe.value.chunkType
                      && |r.value.value.measurementID| == probe.value.strLength
    ensures r.Ok? ==> offset + probe.value.alreadyRead + probe.value.strLength + 1 + 3 * TAG_BYTES <= r.value.next <= |file|
    ensures r.Ok? ==> r.value.next <= offset + probe.value.alreadyRead + RemainingBytes(probe.value.strLength)
  {
    var p :- probe;
    var remaining := RemainingBytes(p.strLength);
    if remaining < 0 then Err(BadBufferSize)
    else
      var at := offset + p.alreadyRead;
      Shifted(DecodeRest(p.chunkType, p.strLength, ReadAt(file, at, remaining), 0), at)
  }

  /** A failed first read fails the offset decode with its error, and nothing is recorded. */
  lemma OffsetDecodeWithoutProbe(file: seq<byte>, offset: nat)
    requires ReadProbe(file, offset).Err?
    ensures OffsetDecode(file, offset) == Err(ReadProbe(file, offset).error)
    ensures RecordedSize(file, offset).Err?
  {
  }

  /**
   * After a successful first read: a negative second-read size fails the decode, otherwise
   * the decode is the second read's, and the recorder gets the probe bytes consumed plus the
   * size of the second read.
   */
  lemma OffsetDecodeAfterProbe(file: seq<byte>, offset: nat, p: Probe)
    requires ReadProbe(file, offset) == Ok(p)
    ensures RemainingBytes(p.strLength) < 0 ==> OffsetDecode(file, offset) == Err(BadBufferSize) && RecordedSize(file, offset).Err?
    ensures 0 <= RemainingBytes(p.strLength) ==>
              OffsetDecode(file, offset) == DecodeSecondRead(file, offset, Ok(p))
              && RecordedSize(file, offset) == Ok(p.alreadyRead + RemainingBytes(p.strLength))
  {
  }

  /** The marker and the id's length read straight from the file, with no probe window. */
  function FileProbe(file: seq<byte>, offset: nat): (r: Result<Probe>)
    ensures r.Ok? ==> offset + r.value.alreadyRead <= |file|
  {
    var marker :- ReadByte(file, offset);
    var len :- ReadVarInt(file, marker.next);
    Ok(Probe(marker.value, len.value, len.next - offset))
  }

  /**
   * The six-byte probe is always enough: reading the marker and the id's length from it
   * succeeds exactly when reading them from the file does, with the same values.
   */
  lemma ProbeAgrees(file: seq<byte>, offset: nat)
    ensures ReadProbe(file, offset).Ok? <==> FileProbe(file, offset).Ok?
    ensures ReadProbe(file, offset).Ok? ==> ReadProbe(file, offset) == FileProbe(file, offset)
  {
    if offset < |file| {
      var hi := Min(offset + PROBE_BYTES, |file|);
      assert ReadAt(file, offset, PROBE_BYTES) == file[offset..hi];
      ReadByteWindow(file, offset, hi, offset);
      ReadVarIntWindow(file, offset, hi, offset + 1);
    }
  }

  /** Decoding the rest of a header from a window of s agrees with decoding it from s. */
  lemma DecodeRestWindow(chunkType: byte, strLength: int32, s: seq<byte>, lo: nat, hi: nat, pos: nat)
    requires lo <= pos && lo <= hi <= |s|
    ensures WindowAgrees(DecodeRest(chunkType, strLength, s[lo..hi], pos - lo), DecodeRest(chunkType, strLength, s, pos), lo, hi)
  {
    ReadStringWithLengthWindow(s, lo, hi, pos, strLength);
    var id := ReadStringWithLength(s, pos, strLength);
    if id.Ok? {
      DecodeTailWindow(s, lo, hi, id.value.next);
    }
  }

  /**
   * The second read seen through the file: a window of it starting where the probe ended.
   * Shifted to file positions, what it decodes is what the file decodes from there, and it
   * decodes whenever the file's decode ends inside the window.
   */
  lemma SecondReadWindow(p: Probe, file: seq<byte>, at: nat, n: nat)
    requires at <= |file|
    ensures Shifted(DecodeRest(p.chunkType, p.strLength, ReadAt(file, at, n), 0), at).Ok? ==>
              Shifted(DecodeRest(p.chunkType, p.strLength, ReadAt(file, at, n), 0), at) == DecodeRest(p.chunkType, p.strLength, file, at)
    ensures DecodeRest(p.chunkType, p.strLength, file, at).Ok? && DecodeRest(p.chunkType, p.strLength, file, at).value.next <= at + n ==>
              Shifted(DecodeRest(p.chunkType, p.strLength, ReadAt(file, at, n), 0), at) == DecodeRest(p.chunkType, p.strLength, file, at)
  {
    var hi := Min(at + n, |file|);
    assert ReadAt(file, at, n) == file[at..hi];
    DecodeRestWindow(p.chunkType, p.strLength, file, at, hi, at);
    ShiftedWindow(DecodeRest(p.chunkType, p.strLength, file[at..hi], 0), DecodeRest(p.chunkType, p.strLength, file, at), at, hi);
  }

  /** The id-length step of DecodeBody: the rest of the header follows the varint. */
  lemma DecodeBodyAsRest(chunkType: byte, s: seq<byte>, pos: nat, len: int32, at: nat)
    requires ReadVarInt(s, pos) == Ok(Parsed(len, at))
    ensures DecodeBody(chunkType, s, pos) == DecodeRest(chunkType, len, s, at)
  {
    assert ReadVarIntString(s, pos) == ReadStringWithLength(s, at, len);
  }

  /** Given the probe fields, DecodeHeader is the rest of the header after them. */
  lemma DecodeHeaderAsRest(file: seq<byte>, offset: nat, p: Probe)
    requires FileProbe(file, offset) == Ok(p)
    ensures DecodeHeader(file, offset) == DecodeRest(p.chunkType, p.strLength, file, offset + p.alreadyRead)
  {
    assert ReadByte(file, offset) == Ok(Parsed(p.chunkType, offset + 1));
    assert ReadVarInt(file, offset + 1) == Ok(Parsed(p.strLength, offset + p.alreadyRead));
    DecodeBodyAsRest(p.chunkType, file, offset + 1, p.strLength, offset + p.alreadyRead);
  }

  /** A header the whole file holds at offset has a probe there. */
  lemma HeaderHasProbe(file: seq<byte>, offset: nat)
    requires DecodeHeader(file, offset).Ok?
    ensures FileProbe(file, offset).Ok?
  {
  }

  /**
   * Given a probe, the second read agrees with decoding the rest of the header from the
   * whole file, and succeeds whenever that decode ends within the second read.
   */
  lemma SecondReadViaFile(file: seq<byte>, offset: nat, p: Probe)
    requires 0 <= RemainingBytes(p.strLength) && offset + p.alreadyRead <= |file|
    ensures DecodeSecondRead(file, offset, Ok(p)).Ok? ==>
              DecodeSecondRead(file, offset, Ok(p)) == DecodeRest(p.chunkType, p.strLength, file, offset + p.alreadyRead)
    ensures DecodeRest(p.chunkType, p.strLength, file, offset + p.alreadyRead).Ok?
            && DecodeRest(p.chunkType, p.strLength, file, offset + p.alreadyRead).value.next
               <= offset + p.alreadyRead + RemainingBytes(p.strLength) ==>
              DecodeSecondRead(file, offset, Ok(p)) == DecodeRest(p.chunkType, p.strLength, file, offset + p.alreadyRead)
  {
    assert DecodeSecondRead(file, offset, Ok(p))
        == Shifted(DecodeRest(p.chunkType, p.strLength, ReadAt(file, offset + p.alreadyRead, RemainingBytes(p.strLength)), 0),
                   offset + p.alreadyRead);
    SecondReadWindow(p, file, offset + p.alreadyRead, RemainingBytes(p.strLength));
  }

  /** Whatever the two reads decode is what a decode of the whole file at offset gives. */
  lemma OffsetDecodeSound(file: seq<byte>, offset: nat)
    ensures OffsetDecode(file, offset).Ok? ==> OffsetDecode(file, offset) == DecodeHeader(file, offset)
  {
    if OffsetDecode(file, offset).Ok? {
      var p := ReadProbe(file, offset).value;
      ProbeAgrees(file, offset);
      DecodeHeaderAsRest(file, offset, p);
      SecondReadViaFile(file, offset, p);
    }
  }

  /**
   * The two reads decode every header the whole file holds at offset whose id is shorter
   * than 2^31 - 8 bytes, to the same fields and the same end.
   */
  lemma OffsetDecodeComplete(file: seq<byte>, offset: nat)
    requires DecodeHeader(file, offset).Ok?
    requires |DecodeHeader(file, offset).value.value.measurementID| <= INT32_MAX - TAIL_ALLOWANCE
    ensures OffsetDecode(file, offset) == DecodeHeader(file, offset)
  {
    HeaderHasProbe(file, offset);
    var p := FileProbe(file, offset).value;
    ProbeAgrees(file, offset);
    DecodeHeaderAsRest(file, offset, p);
    SecondReadViaFile(file, offset, p);
  }

  /**
   * An id of 2^31 - 8 bytes or more makes the second read's size negative: the decode
   * fails and the recorder is not called.
   */
  lemma OffsetDecodeRejectsLongIds(file: seq<byte>, offset: nat)
    requires DecodeHeader(file, offset).Ok?
    requires |DecodeHeader(file, offset).value.value.measurementID| > INT32_MAX - TAIL_ALLOWANCE
    ensures OffsetDecode(file, offset) == Err(BadBufferSize)
    ensures RecordedSize(file, offset) == Err(BadBufferSize)
  {
    HeaderHasProbe(file, offset);
    var p := FileProbe(file, offset).value;
    ProbeAgrees(file, offset);
    DecodeHeaderAsRest(file, offset, p);
  }

  /**
   * The second read's result: an id of the probed length, and a header no longer than the
   * probe bytes consumed plus the size of the second read.
   */
  lemma SecondReadSize(file: seq<byte>, offset: nat, p: Probe)
    requires 0 <= RemainingBytes(p.strLength) && DecodeSecondRead(file, offset, Ok(p)).Ok?
    ensures |DecodeSecondRead(file, offset, Ok(p)).value.value.measurementID| == p.strLength
    ensures p.alreadyRead + 1 + 3 * TAG_BYTES + p.strLength <= DecodeSecondRead(file, offset, Ok(p)).value.next - offset
                                                              <= p.alreadyRead + RemainingBytes(p.strLength)
  {
  }

  /**
   * When the decode succeeds, the recorder is given the probe bytes used plus the id length
   * plus TAIL_ALLOWANCE. That is at least the header's size and at most four bytes more.
   */
  lemma RecordedSizeCoversHeader(file: seq<byte>, offset: nat)
    requires OffsetDecode(file, offset).Ok?
    ensures RecordedSize(file, offset)
         == Ok(ReadProbe(file, offset).value.alreadyRead + |OffsetDecode(file, offset).value.value.measurementID| + TAIL_ALLOWANCE)
    ensures OffsetDecode(file, offset).value.next - offset <= RecordedSize(file, offset).value
                                                           <= OffsetDecode(file, offset).value.next - offset + INT_BYTES
  {
    var p := ReadProbe(file, offset).value;
    SecondReadSize(file, offset, p);
  }

  /** For a probe of an id's marker and length prefix, the recorder is given the estimated size. */
  lemma RecordedSizeOfProbe(file: seq<byte>, offset: nat, id: ByteString)
    requires ReadProbe(file, offset).Ok? && ReadProbe(file, offset).value.strLength == |id| <= INT32_MAX - TAIL_ALLOWANCE
    requires ReadProbe(file, offset).value.alreadyRead == 1 + VarIntSize(|id|)
    ensures RecordedSize(file, offset) == Ok(EstimatedSize(id))
  {
  }

  /** The probe of an encoded header reads its marker and its id's length prefix. */
  lemma EncodedProbe(f: HeaderFields, file: seq<byte>, offset: nat)
    requires offset + |Encode(f)| <= |file| && file[offset..offset + |Encode(f)|] == Encode(f)
    ensures FileProbe(file, offset) == Ok(Probe(f.chunkType, |f.measurementID|, 1 + VarIntSize(|f.measurementID|)))
  {
    var end, rest := offset + |Encode(f)|, TailBytes(f);
    SplitSlice(file, offset, end, [f.chunkType], VarStringBytes(f.measurementID) + rest);
    assert file[offset] == f.chunkType by {
      assert file[offset] == file[offset..offset + 1][0];
    }
    AppendAssociative(VarIntBytes(|f.measurementID|), f.measurementID, rest);
    SplitSlice(file, offset + 1, end, VarIntBytes(|f.measurementID|), f.measurementID + rest);
    ReadVarIntEncoded(file, offset + 1, |f.measurementID|);
  }

  /**
   * Round trip through the two reads: a header encoded at offset decodes back to its fields
   * and ends where its encoding ends. The recorder is given the estimated size, so the reads
   * never ask for less than the encoding.
   */
  lemma OffsetDecodeEncoded(f: HeaderFields, file: seq<byte>, offset: nat)
    requires offset + |Encode(f)| <= |file| && file[offset..offset + |Encode(f)|] == Encode(f)
    requires |f.measurementID| <= INT32_MAX - TAIL_ALLOWANCE
    ensures OffsetDecode(file, offset) == Ok(Parsed(f, offset + |Encode(f)|))
    ensures RecordedSize(file, offset) == Ok(EstimatedSize(f.measurementID))
    ensures |Encode(f)| <= EstimatedSize(f.measurementID)
  {
    RoundTrip(f, file, offset);
    OffsetDecodeComplete(file, offset);
    EncodedProbe(f, file, offset);
    ProbeAgrees(file, offset);
    RecordedSizeOfProbe(file, offset, f.measurementID);
    EstimateIsUpperBound(f.measurementID, f.dataSize);
  }

  /**
   * The offset decode caches the bytes it consumed, which exceed the exact size when a varint
   * is not in its shortest form: here dataSize 0 is written in two bytes.
   */
  lemma NonCanonicalSizes()
    ensures OffsetDecode([1, 0, 0x80, 0x00, 7, 8, 9], 0) == Ok(Parsed(HeaderFields(1, [], 0, 7, 8, 9), 7))
    ensures ExactSize([], 0) == 6
  {
    var file: seq<byte> := [1, 0, 0x80, 0x00, 7, 8, 9];
    var probe := ReadAt(file, 0, PROBE_BYTES);
    assert probe == file[..6];
    assert ReadUVarIntFrom(probe, 1, 0, 0) == Ok(Parsed(0, 2));
    assert ReadProbe(file, 0) == Ok(Probe(1, 0, 2));
    var second := ReadAt(file, 2, RemainingBytes(0));
    assert second == [0x80, 0x00, 7, 8, 9];
    assert ReadUVarIntFrom(second, 1, 1, 0) == Ok(Parsed(0, 2));
    assert ReadUVarIntFrom(second, 0, 0, 0) == Ok(Parsed(0, 2));
    assert DecodeTail(second, 0) == Ok(Parsed(Tail(0, 7, 8, 9), 5));
    assert DecodeRest(1, 0, second, 0) == Ok(Parsed(HeaderFields(1, [], 0, 7, 8, 9), 5));
  }
}
