/**
 * The chunk header object: the serialised fields, the page count and the cached encoded
 * size, the constructors that derive the marker and the size, the two serialisers, the
 * stream decoders and the in-place mutators.
 */
module ChunkHeaders {
  import opened Results
  import opened VarInt
  import opened ByteIO
  import opened ChunkLayout
  import opened Counters
  import opened Streams
  import opened OffsetRead

  class ChunkHeader {
    var chunkType: byte
    var measurementID: ByteString
    var dataSize: int32
    const dataType: byte
    const compressionType: byte
    const encodingType: byte
    /** Not serialised: the page count, 0 unless a constructor is given one. */
    var numOfPages: int32
    /** Not serialised: the encoded size, fixed at construction. */
    const serializedSize: int

    /** The fields serializeTo writes. */
    function Fields(): HeaderFields
      reads this
    {
      HeaderFields(chunkType, measurementID, dataSize, dataType, compressionType, encodingType)
    }

    /** The two counters mergeChunkHeader adds up. */
    function CounterValues(): Counts
      reads this
    {
      Counts(dataSize, numOfPages)
    }

    /** The cached size is the exact size of the current id and dataSize. */
    ghost predicate SizeIsExact()
      reads this
    {
      serializedSize == ExactSize(measurementID, dataSize)
    }

    /** The field constructor without a mask: the marker alone, from the page count. */
    constructor WithPages(measurementID: ByteString, dataSize: int32, dataType: byte, compressionType: byte,
                          encoding: byte, numOfPages: int32)
      ensures Fields() == HeaderFields(ChunkTypeFor(numOfPages, 0) as int, measurementID, dataSize, dataType, compressionType, encoding)
      ensures this.numOfPages == numOfPages && SizeIsExact()
    {
      this.chunkType := ChunkTypeFor(numOfPages, 0) as int;
      this.measurementID := measurementID;
      this.dataSize := dataSize;
      this.dataType := dataType;
      this.compressionType := compressionType;
      this.encodingType := encoding;
      this.serializedSize := ExactSize(measurementID, dataSize);
      this.numOfPages := numOfPages;
    }

    /** The field constructor with a mask: the marker from the page count, OR-ed with the mask's low byte. */
    constructor WithMask(measurementID: ByteString, dataSize: int32, dataType: byte, compressionType: byte,
                         encoding: byte, numOfPages: int32, mask: int32)
      ensures Fields() == HeaderFields(ChunkTypeFor(numOfPages, mask) as int, measurementID, dataSize, dataType, compressionType, encoding)
      ensures this.numOfPages == numOfPages && SizeIsExact()
    {
      this.chunkType := ChunkTypeFor(numOfPages, mask) as int;
      this.measurementID := measurementID;
      this.dataSize := dataSize;
      this.dataType := dataType;
      this.compressionType := compressionType;
      this.encodingType := encoding;
      this.serializedSize := ExactSize(measurementID, dataSize);
      this.numOfPages := numOfPages;
    }

    /** The decode-side constructor: the chunk type as given, the exact size computed, no pages. */
    constructor WithChunkType(chunkType: byte, measurementID: ByteString, dataSize: int32, dataType: byte,
                              compressionType: byte, encoding: byte)
      ensures Fields() == HeaderFields(chunkType, measurementID, dataSize, dataType, compressionType, encoding)
      ensures numOfPages == 0 && SizeIsExact()
    {
      this.chunkType := chunkType;
      this.measurementID := measurementID;
      this.dataSize := dataSize;
      this.dataType := dataType;
      this.compressionType := compressionType;
      this.encodingType := encoding;
      this.serializedSize := ExactSize(measurementID, dataSize);
      this.numOfPages := 0;
    }

    /** The constructor that takes the header size from the caller, unchecked. */
    constructor WithHeaderSize(chunkType: byte, measurementID: ByteString, dataSize: int32, headerSize: int,
                               dataType: byte, compressionType: byte, encoding: byte)
      ensures Fields() == HeaderFields(chunkType, measurementID, dataSize, dataType, compressionType, encoding)
      ensures numOfPages == 0 && serializedSize == headerSize
    {
      this.chunkType := chunkType;
      this.measurementID := measurementID;
      this.dataSize := dataSize;
      this.dataType := dataType;
      this.compressionType := compressionType;
      this.encodingType := encoding;
      this.serializedSize := headerSize;
      this.numOfPages := 0;
    }

    /**
     * serializeTo(OutputStream): appends the encoding and returns the number of bytes written,
     * which is the exact size, and the cached size when that is still exact.
     */
    method SerializeTo(out: OutputStream) returns (length: nat)
      modifies out
      ensures out.written == old(out.written) + Encode(Fields())
      ensures length == |Encode(Fields())| == ExactSize(measurementID, dataSize)
      ensures SizeIsExact() ==> length == serializedSize
    {
      ghost var start := out.written;
      length := 0;
      var n := out.Write(chunkType);
      length := length + n;
      ghost var w := [chunkType];
      n := out.WriteVar(measurementID);
      length := length + n;
      AppendAssociative(start, w, VarStringBytes(measurementID));
      w := w + VarStringBytes(measurementID);
      n := out.WriteUnsignedVarInt(ToUnsigned(dataSize));
      length := length + n;
      AppendAssociative(start, w, UVarIntBytes(ToUnsigned(dataSize)));
      w := w + UVarIntBytes(ToUnsigned(dataSize));
      n := out.Write(dataType);
      length := length + n;
      AppendAssociative(start, w, [dataType]);
      w := w + [dataType];
      n := out.Write(compressionType);
      length := length + n;
      AppendAssociative(start, w, [compressionType]);
      w := w + [compressionType];
      n := out.Write(encodingType);
      length := length + n;
      AppendAssociative(start, w, [encodingType]);
      w := w + [encodingType];
      EncodePieces(Fields());
    }

    /**
     * serializeTo(ByteBuffer): puts the encoding at the buffer's position and returns its
     * length, or fails with an overflow when the buffer has no room for all of it.
     */
    method SerializeToBuffer(buffer: ByteBuffer) returns (r: Result<nat>)
      requires buffer.Valid()
      modifies buffer, buffer.buf
      ensures buffer.Valid()
      ensures r.Ok? <==> old(buffer.position) + ExactSize(measurementID, dataSize) <= buffer.buf.Length
      ensures r.Ok? ==> (r.value == ExactSize(measurementID, dataSize)
                         && buffer.position == old(buffer.position) + ExactSize(measurementID, dataSize)
                         && buffer.buf[..] == Overlay(old(buffer.buf[..]), old(buffer.position), Encode(Fields())))
      ensures r.Err? ==> (r.error == BufferOverflow
                          && buffer.buf[..old(buffer.position)] == old(buffer.buf[..])[..old(buffer.position)])
    {
      ghost var start, before, f := buffer.position, buffer.buf[..], Fields();
      ghost var marker: seq<byte>, idBytes := [chunkType], VarStringBytes(measurementID);
      var length := 0;
      var n := buffer.Put(chunkType);
      if n.Err? {
        return Err(BufferOverflow);
      }
      length := length + n.value;
      n := buffer.PutVar(measurementID);
      if n.Err? {
        OverlayKeepsPrefix(before, start, marker, start);
        return Err(BufferOverflow);
      }
      OverlayConcat(before, start, marker, idBytes);
      length := length + n.value;
      ghost var written := marker + idBytes;
      n := PutTail(buffer);
      if n.Err? {
        OverlayKeepsPrefix(before, start, written, start);
        return Err(BufferOverflow);
      }
      OverlayConcat(before, start, written, TailBytes(f));
      length := length + n.value;
      EncodeHeadTail(f);
      r := Ok(length);
    }

    /** The part of serializeTo(ByteBuffer) after the id: dataSize and the three tags. */
    method PutTail(buffer: ByteBuffer) returns (r: Result<nat>)
      requires buffer.Valid()
      modifies buffer, buffer.buf
      ensures buffer.Valid()
      ensures r.Ok? <==> old(buffer.position) + |TailBytes(Fields())| <= buffer.buf.Length
      ensures r.Ok? ==> (r.value == |TailBytes(Fields())|
                         && buffer.position == old(buffer.position) + |TailBytes(Fields())|
                         && buffer.buf[..] == Overlay(old(buffer.buf[..]), old(buffer.position), TailBytes(Fields())))
      ensures r.Err? ==> (r.error == BufferOverflow
                          && buffer.buf[..old(buffer.position)] == old(buffer.buf[..])[..old(buffer.position)])
    {
      ghost var start, before := buffer.position, buffer.buf[..];
      ghost var sizeBytes := UVarIntBytes(ToUnsigned(dataSize));
      var length := 0;
      var n := buffer.PutUnsignedVarInt(ToUnsigned(dataSize));
      if n.Err? {
        OverlayKeepsPrefix(before, start, sizeBytes[..buffer.buf.Length - start], start);
        return Err(BufferOverflow);
      }
      length := length + n.value;
      ghost var written := sizeBytes;
      n := buffer.PutEach([dataType, compressionType, encodingType]);
      if n.Err? {
        OverlayKeepsPrefix(before, start, written, start);
        OverlayKeepsPrefix(Overlay(before, start, written), start + |written|,
                           [dataType, compressionType, encodingType][..buffer.buf.Length - (start + |written|)], start);
        return Err(BufferOverflow);
      }
      OverlayConcat(before, start, written, [dataType, compressionType, encodingType]);
      length := length + n.value;
      r := Ok(length);
    }

    /**
     * mergeChunkHeader: adds the other header's dataSize and page count to this one's, with
     * int wrap-around, and changes nothing else. The other header may be this one.
     */
    method MergeChunkHeader(other: ChunkHeader)
      modifies this
      ensures CounterValues() == Merge(old(CounterValues()), old(other.CounterValues()))
      ensures chunkType == old(chunkType) && measurementID == old(measurementID)
    {
      dataSize := Wrap32(dataSize + other.dataSize);
      numOfPages := Wrap32(numOfPages + other.numOfPages);
    }

    method SetDataSize(dataSize: int32)
      modifies this
      ensures this.dataSize == dataSize
      ensures chunkType == old(chunkType) && measurementID == old(measurementID) && numOfPages == old(numOfPages)
    {
      this.dataSize := dataSize;
    }

    method SetChunkType(chunkType: byte)
      modifies this
      ensures this.chunkType == chunkType
      ensures measurementID == old(measurementID) && dataSize == old(dataSize) && numOfPages == old(numOfPages)
    {
      this.chunkType := chunkType;
    }

    method SetMeasurementID(measurementID: ByteString)
      modifies this
      ensures this.measurementID == measurementID
      ensures chunkType == old(chunkType) && dataSize == old(dataSize) && numOfPages == old(numOfPages)
    {
      this.measurementID := measurementID;
    }

    /** increasePageNums: adds i to the page count, with int wrap-around. */
    method IncreasePageNums(i: int32)
      modifies this
      ensures numOfPages == Wrap32(old(numOfPages) + i)
      ensures chunkType == old(chunkType) && measurementID == old(measurementID) && dataSize == old(dataSize)
    {
      numOfPages := Wrap32(numOfPages + i);
    }
  }

  /**
   * deserializeFrom(InputStream, chunkType): the fields after the marker, read from the
   * stream's position. The header carries the given chunk type, its exact size and no pages,
   * and the stream stops right after the encoding tag.
   */
  method DeserializeFrom(input: ReadCursor, chunkType: byte) returns (r: Result<ChunkHeader>)
    requires input.Valid()
    modifies input
    ensures input.Valid()
    ensures r.Ok? <==> DecodeBody(chunkType, input.data, old(input.pos)).Ok?
    ensures r.Ok? ==> (fresh(r.value)
                       && r.value.Fields() == DecodeBody(chunkType, input.data, old(input.pos)).value.value
                       && input.pos == DecodeBody(chunkType, input.data, old(input.pos)).value.next
                       && r.value.numOfPages == 0 && r.value.SizeIsExact())
    ensures r.Err? ==> r.error == DecodeBody(chunkType, input.data, old(input.pos)).error
  {
    var id := input.ReadVarIntString();
    if id.Err? {
      return Err(id.error);
    }
    ghost var tailAt := input.pos;
    var size := input.ReadUnsignedVarInt();
    if size.Err? {
      return Err(size.error);
    }
    var dataType := input.ReadByte();
    if dataType.Err? {
      return Err(dataType.error);
    }
    var compression := input.ReadByte();
    if compression.Err? {
      return Err(compression.error);
    }
    var encoding := input.ReadByte();
    if encoding.Err? {
      return Err(encoding.error);
    }
    var tail := Tail(ToSigned(size.value), dataType.value, compression.value, encoding.value);
    assert DecodeTail(input.data, tailAt) == Ok(Parsed(tail, input.pos));
    DecodeBodyOfParts(chunkType, input.data, old(input.pos), id.value, tailAt, tail, input.pos);
    var h := new ChunkHeader.WithChunkType(chunkType, id.value, tail.dataSize, dataType.value, compression.value, encoding.value);
    r := Ok(h);
  }

  /**
   * deserializeCompressionTypeAndEncoding: from the dataSize field, skips dataSize and the
   * data-type tag and returns the compression and encoding tags.
   */
  method DeserializeCompressionTypeAndEncoding(input: ReadCursor) returns (r: Result<(byte, byte)>)
    requires input.Valid()
    modifies input
    ensures input.Valid() && Follows(r, DecodeCompressionAndEncoding(input.data, old(input.pos)), input.pos)
  {
    var size := input.ReadUnsignedVarInt();
    if size.Err? {
      return Err(size.error);
    }
    var skipped := input.Skip(TAG_BYTES);
    if skipped.Err? {
      return Err(skipped.error);
    }
    var compression := input.ReadByte();
    if compression.Err? {
      return Err(compression.error);
    }
    var encoding := input.ReadByte();
    if encoding.Err? {
      return Err(encoding.error);
    }
    r := Ok((compression.value, encoding.value));
  }

  /**
   * deserializeFrom(TsFileInput, offset, ioSizeRecorder): the whole header at a file offset,
   * read in two positioned reads. The header's size is the bytes the two reads used up, and
   * the recorder, when there is one, is given the probe bytes consumed plus the size of the
   * second read, once that size is known to be valid.
   */
  method DeserializeFromFileRecorded(file: seq<byte>, offset: nat, recorder: SizeRecorder?) returns (r: Result<ChunkHeader>)
    modifies recorder
    ensures r.Ok? <==> OffsetDecode(file, offset).Ok?
    ensures r.Ok? ==> (fresh(r.value)
                       && r.value.Fields() == OffsetDecode(file, offset).value.value
                       && r.value.serializedSize == OffsetDecode(file, offset).value.next - offset
                       && r.value.numOfPages == 0)
    ensures r.Err? ==> r.error == OffsetDecode(file, offset).error
    ensures recorder != null ==>
              recorder.accepted == old(recorder.accepted)
                                   + (if RecordedSize(file, offset).Ok? then [RecordedSize(file, offset).value] else [])
  {
    var probe := ReadFirst(file, offset);
    if probe.Err? {
      OffsetDecodeWithoutProbe(file, offset);
      return Err(probe.error);
    }
    OffsetDecodeAfterProbe(file, offset, probe.value);
    r := ReadAfterProbe(file, offset, probe.value, recorder);
  }

  /**
   * The offset decode once the probe is read: the second read's size as a Java int, the
   * recorder call when that size is valid, then the second read.
   */
  method ReadAfterProbe(file: seq<byte>, offset: nat, p: Probe, recorder: SizeRecorder?) returns (r: Result<ChunkHeader>)
    modifies recorder
    ensures r.Ok? <==> DecodeSecondRead(file, offset, Ok(p)).Ok?
    ensures r.Ok? ==> (fresh(r.value)
                       && r.value.Fields() == DecodeSecondRead(file, offset, Ok(p)).value.value
                       && r.value.serializedSize == DecodeSecondRead(file, offset, Ok(p)).value.next - offset
                       && r.value.numOfPages == 0)
    ensures r.Err? ==> r.error == DecodeSecondRead(file, offset, Ok(p)).error
    ensures recorder != null ==>
              recorder.accepted == old(recorder.accepted)
                                   + (if 0 <= RemainingBytes(p.strLength) then [p.alreadyRead + RemainingBytes(p.strLength)] else [])
  {
    var remaining := RemainingBytes(p.strLength);
    if remaining < 0 {
      return Err(BadBufferSize);
    }
    if recorder != null {
      recorder.Accept(p.alreadyRead + remaining);
    }
    r := ReadSecond(file, offset, p);
  }

  /**
   * The second read of the offset decode, sized from the probe: the id and the tail from the
   * bytes after the probe. The header's size is the bytes the two reads used up.
   */
  method ReadSecond(file: seq<byte>, offset: nat, p: Probe) returns (r: Result<ChunkHeader>)
    requires 0 <= RemainingBytes(p.strLength)
    ensures r.Ok? <==> DecodeSecondRead(file, offset, Ok(p)).Ok?
    ensures r.Ok? ==> (fresh(r.value)
                       && r.value.Fields() == DecodeSecondRead(file, offset, Ok(p)).value.value
                       && r.value.serializedSize == DecodeSecondRead(file, offset, Ok(p)).value.next - offset
                       && r.value.numOfPages == 0)
    ensures r.Err? ==> r.error == DecodeSecondRead(file, offset, Ok(p)).error
  {
    var body := new ReadCursor(ReadAt(file, offset + p.alreadyRead, RemainingBytes(p.strLength)));
    var fields := ReadRest(body, p.chunkType, p.strLength);
    if fields.Err? {
      return Err(fields.error);
    }
    var f := fields.value;
    var h := new ChunkHeader.WithHeaderSize(p.chunkType, f.measurementID, f.dataSize, p.alreadyRead + body.pos,
                                            f.dataType, f.compressionType, f.encodingType);
    r := Ok(h);
  }

  /** The first read of the offset decode: the marker and the id's length from the probe bytes. */
  method ReadFirst(file: seq<byte>, offset: nat) returns (r: Result<Probe>)
    ensures r == ReadProbe(file, offset)
  {
    var probe := new ReadCursor(ReadAt(file, offset, PROBE_BYTES));
    var chunkType := probe.ReadByte();
    if chunkType.Err? {
      return Err(chunkType.error);
    }
    var strLength := probe.ReadVarInt();
    if strLength.Err? {
      return Err(strLength.error);
    }
    r := Ok(Probe(chunkType.value, strLength.value, probe.pos));
  }

  /** The reads after the id's length: the id of the given length, dataSize and the three tags. */
  method ReadRest(input: ReadCursor, chunkType: byte, strLength: int32) returns (r: Result<HeaderFields>)
    requires input.Valid()
    modifies input
    ensures input.Valid() && Follows(r, DecodeRest(chunkType, strLength, input.data, old(input.pos)), input.pos)
  {
    var id := input.ReadStringWithLength(strLength);
    if id.Err? {
      return Err(id.error);
    }
    ghost var tailAt := input.pos;
    var size := input.ReadUnsignedVarInt();
    if size.Err? {
      return Err(size.error);
    }
    var dataType := input.ReadByte();
    if dataType.Err? {
      return Err(dataType.error);
    }
    var compression := input.ReadByte();
    if compression.Err? {
      return Err(compression.error);
    }
    var encoding := input.ReadByte();
    if encoding.Err? {
      return Err(encoding.error);
    }
    assert DecodeTail(input.data, tailAt) == Ok(Parsed(Tail(ToSigned(size.value), dataType.value, compression.value, encoding.value), input.pos));
    r := Ok(HeaderFields(chunkType, id.value, ToSigned(size.value), dataType.value, compression.value, encoding.value));
  }

  /** deserializeFrom(TsFileInput, offset): the same two reads with no recorder. */
  method DeserializeFromFile(file: seq<byte>, offset: nat) returns (r: Result<ChunkHeader>)
    ensures r.Ok? <==> OffsetDecode(file, offset).Ok?
    ensures r.Ok? ==> (fresh(r.value)
                       && r.value.Fields() == OffsetDecode(file, offset).value.value
                       && r.value.serializedSize == OffsetDecode(file, offset).value.next - offset
                       && r.value.numOfPages == 0)
    ensures r.Err? ==> r.error == OffsetDecode(file, offset).error
  {
    r := DeserializeFromFileRecorded(file, offset, null);
  }
}
