/**
 * The byte layout of a chunk header and its pure encode/decode functions:
 *
 *   marker byte | zig-zag varint id length | id bytes | unsigned varint dataSize
 *   | data-type tag | compression tag | encoding tag
 *
 * The marker byte carries the page-count marker in its low bits and two vector flags in
 * bits 8 and 7.
 */
module ChunkLayout {
  import opened Results
  import opened VarInt
  import opened ByteIO

  /** Marker of a chunk with several pages, each page carrying its own statistics. */
  const CHUNK_HEADER: bv8 := 1
  /** Marker of a chunk with a single page and no page statistics. */
  const ONLY_ONE_PAGE_CHUNK_HEADER: bv8 := 5
  /** Bit 8: the chunk is the time column of a vector. */
  const TIME_CHUNK_FLAG: bv8 := 0x80
  /** Bit 7: the chunk is a value column of a vector. */
  const VALUE_CHUNK_FLAG: bv8 := 0x40
  /** The bits below the two vector flags. */
  const MARKER_BITS: bv8 := 0x3F
  /** Each enum tag (data type, compression type, encoding) is one byte wide. */
  const TAG_BYTES: nat := 1
  const INT_BYTES: nat := 4

  /** The marker chosen from the page count. */
  function PageMarker(numOfPages: int): bv8 {
    if numOfPages <= 1 then ONLY_ONE_PAGE_CHUNK_HEADER else CHUNK_HEADER
  }

  /** (byte) mask: the low eight bits of the int. */
  function MaskByte(mask: int32): bv8 {
    (mask % 0x100) as bv8
  }

  predicate IsTimeChunk(t: bv8) {
    t & TIME_CHUNK_FLAG != 0
  }

  predicate IsValueChunk(t: bv8) {
    t & VALUE_CHUNK_FLAG != 0
  }

  /**
   * The chunk type the field constructor derives: the page marker OR-ed with the caller's
   * mask. Every mask bit and every marker bit is set in the result; the vector flags are
   * those of the mask; and when the mask holds flags only, the bits below the flags are
   * exactly the marker, so they read ONLY_ONE_PAGE_CHUNK_HEADER precisely for at most one page.
   */
  function ChunkTypeFor(numOfPages: int32, mask: int32): (t: bv8)
    ensures t & MaskByte(mask) == MaskByte(mask)
    ensures t & PageMarker(numOfPages) == PageMarker(numOfPages)
    ensures IsTimeChunk(t) == IsTimeChunk(MaskByte(mask))
    ensures IsValueChunk(t) == IsValueChunk(MaskByte(mask))
    ensures MaskByte(mask) & MARKER_BITS == 0 ==> t & MARKER_BITS == PageMarker(numOfPages)
    ensures MaskByte(mask) & MARKER_BITS == 0 ==> (t & MARKER_BITS == ONLY_ONE_PAGE_CHUNK_HEADER <==> numOfPages <= 1)
  {
    PageMarker(numOfPages) | MaskByte(mask)
  }

  /** The fields a chunk header serialises. */
  datatype HeaderFields = HeaderFields(
    chunkType: byte,
    measurementID: ByteString,
    dataSize: int32,
    dataType: byte,
    compressionType: byte,
    encodingType: byte)

  /** getSerializedSize(measurementID, dataSize): the exact encoded length. */
  function ExactSize(measurementID: ByteString, dataSize: int32): nat {
    1 + VarIntSize(|measurementID|) + |measurementID| + UVarIntSize(ToUnsigned(dataSize)) + 3 * TAG_BYTES
  }

  /** getSerializedSize(measurementID): the length when dataSize is still unknown, counting five bytes for it. */
  function EstimatedSize(measurementID: ByteString): nat {
    1 + VarIntSize(|measurementID|) + |measurementID| + INT_BYTES + 1 + 3 * TAG_BYTES
  }

  /**
   * Besides the id's bytes, a header takes 6 to 14 bytes: the marker, two varints of one to
   * five bytes each, and the three tags. The estimate counts 10 to 14, dataSize's five
   * bytes included.
   */
  lemma SizeBounds(measurementID: ByteString, dataSize: int32)
    ensures |measurementID| + 2 + 1 + 3 * TAG_BYTES <= ExactSize(measurementID, dataSize)
                                                     <= |measurementID| + 1 + 2 * MAX_VARINT_BYTES + 3 * TAG_BYTES
    ensures |measurementID| + 1 + 1 + MAX_VARINT_BYTES + 3 * TAG_BYTES <= EstimatedSize(measurementID)
                                                                       <= |measurementID| + 1 + 2 * MAX_VARINT_BYTES + 3 * TAG_BYTES
  {
    UVarIntSizeOf32(ZigZag(|measurementID|));
    UVarIntSizeOf32(ToUnsigned(dataSize));
  }

  /**
   * The estimate never falls short of the exact size, for any 32-bit dataSize; the slack is
   * the number of varint bytes dataSize does not need, so the two agree exactly when dataSize,
   * read as unsigned, is at least 2^28.
   */
  lemma EstimateIsUpperBound(measurementID: ByteString, dataSize: int32)
    ensures ExactSize(measurementID, dataSize) <= EstimatedSize(measurementID)
    ensures EstimatedSize(measurementID) - ExactSize(measurementID, dataSize)
         == MAX_VARINT_BYTES - UVarIntSize(ToUnsigned(dataSize))
    ensures ExactSize(measurementID, dataSize) == EstimatedSize(measurementID)
        <==> ToUnsigned(dataSize) >= 0x1000_0000
  {
    UVarIntSizeOf32(ToUnsigned(dataSize));
  }

  /** The bytes serializeTo writes for a header: the marker, the id, then the tail. */
  function Encode(f: HeaderFields): (bs: seq<byte>)
    ensures |bs| == ExactSize(f.measurementID, f.dataSize)
    ensures |bs| == 1 + |VarStringBytes(f.measurementID)| + |TailBytes(f)|
    ensures bs[0] == f.chunkType
  {
    [f.chunkType] + (VarStringBytes(f.measurementID) + TailBytes(f))
  }

  /** The bytes after the id: dataSize as an unsigned varint of its bit pattern, then the three tags. */
  function TailBytes(f: HeaderFields): (bs: seq<byte>)
    ensures |bs| == UVarIntSize(ToUnsigned(f.dataSize)) + 3 * TAG_BYTES
  {
    UVarIntBytes(ToUnsigned(f.dataSize)) + [f.dataType, f.compressionType, f.encodingType]
  }

  /** The encoding piece by piece, in the order serializeTo writes the fields. */
  lemma EncodePieces(f: HeaderFields)
    ensures Encode(f) == [f.chunkType] + VarStringBytes(f.measurementID) + UVarIntBytes(ToUnsigned(f.dataSize))
                         + [f.dataType] + [f.compressionType] + [f.encodingType]
  {
  }

  /** The encoding split after the id: the marker and the id, then the tail. */
  lemma EncodeHeadTail(f: HeaderFields)
    ensures Encode(f) == ([f.chunkType] + VarStringBytes(f.measurementID)) + TailBytes(f)
  {
  }

  /** What follows the id: dataSize and the three tags. */
  datatype Tail = Tail(dataSize: int32, dataType: byte, compressionType: byte, encodingType: byte)

  /** Reads dataSize and the data-type, compression and encoding tags from pos. */
  function DecodeTail(s: seq<byte>, pos: nat): (r: Result<Parsed<Tail>>)
    ensures r.Ok? ==> pos + 1 + 3 * TAG_BYTES <= r.value.next <= |s| && r.value.next <= pos + MAX_VARINT_BYTES + 3 * TAG_BYTES
  {
    var size :- ReadUVarInt(s, pos);
    var dataType :- ReadByte(s, size.next);
    var compression :- ReadByte(s, dataType.next);
    var encoding :- ReadByte(s, compression.next);
    Ok(Parsed(Tail(ToSigned(size.value), dataType.value, compression.value, encoding.value), encoding.next))
  }

  /**
   * deserializeFrom(stream, chunkType): the fields after the marker, read from pos. The
   * result carries the caller's chunk type and the position after the encoding tag.
   */
  function DecodeBody(chunkType: byte, s: seq<byte>, pos: nat): (r: Result<Parsed<HeaderFields>>)
    ensures r.Ok? ==> r.value.value.chunkType == chunkType && pos < r.value.next <= |s|
  {
    var id :- ReadVarIntString(s, pos);
    var tail :- DecodeTail(s, id.next);
    var t := tail.value;
    Ok(Parsed(HeaderFields(chunkType, id.value, t.dataSize, t.dataType, t.compressionType, t.encodingType), tail.next))
  }

  /** A whole header at pos, the marker byte first. */
  function DecodeHeader(s: seq<byte>, pos: nat): (r: Result<Parsed<HeaderFields>>)
    ensures r.Ok? ==> pos < r.value.next <= |s| && r.value.value.chunkType == s[pos]
  {
    var marker :- ReadByte(s, pos);
    DecodeBody(marker.value, s, marker.next)
  }

  /**
   * deserializeCompressionTypeAndEncoding: from the dataSize field on, skips dataSize and
   * the data-type tag and returns the compression and encoding tags.
   */
  function DecodeCompressionAndEncoding(s: seq<byte>, pos: nat): (r: Result<Parsed<(byte, byte)>>)
    ensures r.Ok? ==> pos < r.value.next <= |s|
  {
    var size :- ReadUVarInt(s, pos);
    var skipped :- Skip(s, size.next, TAG_BYTES);
    var compression :- ReadByte(s, skipped);
    var encoding :- ReadByte(s, compression.next);
    Ok(Parsed((compression.value, encoding.value), encoding.next))
  }

  /** DecodeBody assembles the id read at pos and the tail read after it. */
  lemma DecodeBodyOfParts(chunkType: byte, s: seq<byte>, pos: nat, id: ByteString, tailAt: nat, t: Tail, end: nat)
    requires ReadVarIntString(s, pos) == Ok(Parsed(id, tailAt))
    requires DecodeTail(s, tailAt) == Ok(Parsed(t, end))
    ensures DecodeBody(chunkType, s, pos)
         == Ok(Parsed(HeaderFields(chunkType, id, t.dataSize, t.dataType, t.compressionType, t.encodingType), end))
  {
  }

  /** The tail of the fields f. */
  function TailOf(f: HeaderFields): Tail {
    Tail(f.dataSize, f.dataType, f.compressionType, f.encodingType)
  }

  /** dataSize and the tags written at pos read back. */
  lemma DecodeTailEncoded(f: HeaderFields, s: seq<byte>, pos: nat)
    requires pos + |TailBytes(f)| <= |s| && s[pos..pos + |TailBytes(f)|] == TailBytes(f)
    ensures DecodeTail(s, pos) == Ok(Parsed(TailOf(f), pos + |TailBytes(f)|))
  {
    var u := ToUnsigned(f.dataSize);
    var n := UVarIntSize(u);
    SplitSlice(s, pos, pos + n + 3, UVarIntBytes(u), [f.dataType, f.compressionType, f.encodingType]);
    ReadUVarIntEncoded(s, pos, u);
    ThreeBytes(s, pos + n, f.dataType, f.compressionType, f.encodingType);
    SignedRoundTrip(f.dataSize);
  }

  /**
   * Round trip with the marker consumed by the caller: the rest of a header encoded at start
   * decodes back to the same fields, using up exactly the encoding minus its first byte.
   */
  lemma StreamRoundTrip(f: HeaderFields, s: seq<byte>, start: nat)
    requires start + |Encode(f)| <= |s| && s[start..start + |Encode(f)|] == Encode(f)
    ensures DecodeBody(f.chunkType, s, start + 1) == Ok(Parsed(f, start + |Encode(f)|))
  {
    var idBytes, rest := VarStringBytes(f.measurementID), TailBytes(f);
    var tailAt, end := start + 1 + |idBytes|, start + |Encode(f)|;
    assert s[start + 1..tailAt] == idBytes && s[tailAt..end] == rest by {
      SplitSlice(s, start, end, [f.chunkType], idBytes + rest);
      SplitSlice(s, start + 1, end, idBytes, rest);
    }
    assert ReadVarIntString(s, start + 1) == Ok(Parsed(f.measurementID, tailAt)) by {
      ReadVarIntStringEncoded(s, start + 1, f.measurementID);
    }
    assert DecodeTail(s, tailAt) == Ok(Parsed(TailOf(f), end)) by {
      DecodeTailEncoded(f, s, tailAt);
    }
    DecodeBodyOfParts(f.chunkType, s, start + 1, f.measurementID, tailAt, TailOf(f), end);
  }

  /**
   * Round trip: a header encoded at position start of any byte sequence decodes back to the
   * same fields, whatever precedes or follows it, and the decode stops exactly at the end of
   * the encoding.
   */
  lemma RoundTrip(f: HeaderFields, s: seq<byte>, start: nat)
    requires start + |Encode(f)| <= |s| && s[start..start + |Encode(f)|] == Encode(f)
    ensures DecodeHeader(s, start) == Ok(Parsed(f, start + |Encode(f)|))
  {
    assert s[start] == f.chunkType by {
      assert s[start] == s[start..start + |Encode(f)|][0];
    }
    StreamRoundTrip(f, s, start);
  }

  /**
   * The partial decode succeeds or fails with the full decode of the fields after the id,
   * returns the same compression and encoding tags and stops at the same position.
   */
  lemma PartialDecodeAgrees(s: seq<byte>, pos: nat)
    ensures DecodeCompressionAndEncoding(s, pos) == TagsOfTail(DecodeTail(s, pos))
  {
  }

  /** The compression and encoding tags of a tail decode, with its end position. */
  function TagsOfTail(r: Result<Parsed<Tail>>): Result<Parsed<(byte, byte)>> {
    match r
    case Ok(p) => Ok(Parsed((p.value.compressionType, p.value.encodingType), p.next))
    case Err(e) => Err(e)
  }

  /**
   * On a header encoded at start, the partial decode started after the id yields the
   * header's compression and encoding tags and stops at the end of the encoding.
   */
  lemma PartialDecodeEncoded(f: HeaderFields, s: seq<byte>, start: nat)
    requires start + |Encode(f)| <= |s| && s[start..start + |Encode(f)|] == Encode(f)
    ensures DecodeCompressionAndEncoding(s, start + 1 + |VarStringBytes(f.measurementID)|)
         == Ok(Parsed((f.compressionType, f.encodingType), start + |Encode(f)|))
  {
    var idBytes, rest := VarStringBytes(f.measurementID), TailBytes(f);
    var tailAt, end := start + 1 + |idBytes|, start + |Encode(f)|;
    assert s[tailAt..end] == rest by {
      SplitSlice(s, start, end, [f.chunkType], idBytes + rest);
      SplitSlice(s, start + 1, end, idBytes, rest);
    }
    assert DecodeTail(s, tailAt) == Ok(Parsed(TailOf(f), end)) by {
      DecodeTailEncoded(f, s, tailAt);
    }
    PartialDecodeAgrees(s, tailAt);
  }

  /** Decoding the tail from a window of s agrees with decoding it from s itself. */
  lemma DecodeTailWindow(s: seq<byte>, lo: nat, hi: nat, pos: nat)
    requires lo <= pos && lo <= hi <= |s|
    ensures WindowAgrees(DecodeTail(s[lo..hi], pos - lo), DecodeTail(s, pos), lo, hi)
  {
    ReadUVarIntWindow(s, lo, hi, pos);
    var size := ReadUVarInt(s, pos);
    if size.Ok? {
      var q := size.value.next;
      ReadByteWindow(s, lo, hi, q);
      ReadByteWindow(s, lo, hi, q + 1);
      ReadByteWindow(s, lo, hi, q + 2);
    }
  }
}
