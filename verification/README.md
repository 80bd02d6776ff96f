# Chunk header codec of the TsFile format

This project models the chunk header of the TsFile columnar time-series format, as the
class `ChunkHeader` implements it. The header is the record that precedes every chunk of
compressed column data. It holds:

- a marker byte that mixes a page-count marker with two vector flags;
- the measurement id, written as a zig-zag varint length followed by the id's bytes;
- the chunk's data size, written as an unsigned varint of its 32-bit pattern;
- three one-byte tags: data type, compression and encoding.

Two fields are never serialised: the page count and the cached serialised size.

The model covers:

- the four constructors;
- the exact and the estimated size;
- the two serialisers, one to an output stream and one to a fixed-capacity byte buffer;
- the three decoders:
  - the stream decoder, which runs after the marker has been read;
  - the partial decoder, which returns only the compression and encoding tags;
  - the two-read decoder at a file offset, with its optional I/O size recorder;
- the in-place mutators: merge, the setters and the page-count increment.

Modules, one per file:

- `Results` (`results.dfy`): parse results and errors. A Java exception becomes an `Err`.
- `VarInt` (`varint.dfy`): Java int ranges, zig-zag mapping, base-128 varint sizes, bytes and reads.
- `ByteIO` (`byteio.dfy`): single bytes, byte runs, skips and length-prefixed strings read from a byte sequence.
- `ChunkLayout` (`layout.dfy`): the marker derivation, the byte layout, the size functions and the pure encode/decode functions, with the round trips.
- `Counters` (`counters.dfy`): the two mutable counters and the merge, with Java int wrap-around.
- `Streams` (`streams.dfy`):
  - the byte sources and sinks, as classes: an input cursor, an output stream and a `ByteBuffer` over an `array`;
  - a positioned file read;
  - the I/O size recorder.
- `OffsetRead` (`offset.dfy`): the two-read decode at a file offset, as pure functions. Compared with a decode of the whole file at the offset:
  - every successful two-read decode equals it (`OffsetDecodeSound`);
  - every header it finds with an id shorter than 2^31 - 8 bytes is decoded the same way (`OffsetDecodeComplete`);
  - a header with a longer id fails with `BadBufferSize` (`OffsetDecodeRejectsLongIds`);
  - when both decodes fail, their error values are not related.
- `ChunkHeaders` (`chunk_header.dfy`): the `ChunkHeader` class with its constructors and mutators, plus the decoders as methods that are proved against the pure functions.

Each method that reads or writes is specified by a pure function of its input or of its old
state. Examples:

- `SerializeTo` appends `Encode(Fields())`.
- `DeserializeFrom` follows `DecodeBody`.
- `DeserializeFromFileRecorded` follows `OffsetDecode` and `RecordedSize`.

What the source promises is then proved about those functions: round trips, size bounds,
agreement between the decoders, and how merges fold.

The recorder value is the one the code computes: `alreadyReadLength + remainingBytes`, the
probe bytes actually consumed (2 to 6) plus the size of the second read. It is not the sum of
the bytes the two reads ask for, which would count all six bytes of the first read, although
the comment at ChunkHeader.java lines 208-209 says the first read is accounted for in that one
call. The model (`RecordedSize`) follows the code. For an encoded header the value is exactly
the estimated size getSerializedSize(id) (`OffsetDecodeEncoded`).

The two decoders cache their sizes differently, and the model keeps the difference. The
stream decode caches getSerializedSize(id, dataSize) (line 181). The offset decode caches the
bytes it consumed (line 241). The two differ when a varint in the input is not in its
shortest form. For the bytes `[1, 0, 0x80, 0x00, 7, 8, 9]` the offset decode consumes and
caches 7 bytes, while the exact size of that header, with an empty id and dataSize 0, is 6
(`NonCanonicalSizes`).

## Model

| member | source | states |
|---|---|---|
| ChunkLayout.ChunkTypeFor | java/tsfile/src/main/java/org/apache/tsfile/file/header/ChunkHeader.java:86-89 | The derived chunk type has every bit of the mask's low byte and of the page marker set. Its two vector flags are exactly the mask's. When the mask holds only flag bits, the bits below the flags are the page marker, and they read "one page, no statistics" exactly when numOfPages <= 1. |
| ChunkLayout.Encode | java/tsfile/src/main/java/org/apache/tsfile/file/header/ChunkHeader.java:134-144 | The encoding of a header is exactly getSerializedSize(id, dataSize) bytes long, the marker first. |
| ChunkLayout.EstimateIsUpperBound | java/tsfile/src/main/java/org/apache/tsfile/file/header/ChunkHeader.java:150-161 | The estimated size is never below the exact size, for any int dataSize. The difference is 5 minus the varint width of dataSize, so the two are equal exactly when dataSize, read as unsigned, is at least 2^28. |
| ChunkLayout.ExactSize | java/tsfile/src/main/java/org/apache/tsfile/file/header/ChunkHeader.java:134-144 | getSerializedSize(id, dataSize): the marker, the varint length of the id, the id, the unsigned varint of dataSize and the three tags. It has no contract of its own. Encode proves it is the length of the encoding, and SizeBounds bounds it. |
| ChunkLayout.EstimatedSize | java/tsfile/src/main/java/org/apache/tsfile/file/header/ChunkHeader.java:150-161 | getSerializedSize(id): the same sum with five bytes counted for dataSize. It has no contract of its own. EstimateIsUpperBound proves it is never below ExactSize, and SizeBounds bounds it. |
| ChunkLayout.SizeBounds | java/tsfile/src/main/java/org/apache/tsfile/file/header/ChunkHeader.java:134-161 | Besides the id, the exact size takes 6 to 14 bytes and the estimate 10 to 14. |
| VarInt.UVarIntSizeOf32 | java/tsfile/src/main/java/org/apache/tsfile/file/header/ChunkHeader.java:140 | The unsigned varint of a 32-bit dataSize takes at most five bytes, and five exactly when it is at least 2^28. |
| ChunkLayout.DecodeBody | java/tsfile/src/main/java/org/apache/tsfile/file/header/ChunkHeader.java:173-182 | The stream decode carries the caller's chunk type and consumes at least one byte, never past the input. |
| ChunkLayout.DecodeTail | java/tsfile/src/main/java/org/apache/tsfile/file/header/ChunkHeader.java:177-180 | The reads after the id (dataSize, then the data-type, compression and encoding tags) consume 4 to 8 bytes, never past the input. |
| ChunkLayout.DecodeHeader | java/tsfile/src/main/java/org/apache/tsfile/file/header/ChunkHeader.java:215-240 | A whole header read from one byte sequence: the marker, then the fields in the order of the reads. The chunk type is the first byte, and the decode consumes at least it and never reads past the input. |
| ChunkLayout.StreamRoundTrip | java/tsfile/src/main/java/org/apache/tsfile/file/header/ChunkHeader.java:173-182 | After the marker, the stream decode of an encoded header returns the same fields. It stops exactly at the end of the encoding, so it consumes the serialised size minus one byte. |
| ChunkLayout.RoundTrip | java/tsfile/src/main/java/org/apache/tsfile/file/header/ChunkHeader.java:287-296 | A header encoded anywhere in a byte sequence decodes back to the same fields, marker included, and the decode ends where the encoding ends. |
| ChunkLayout.DecodeCompressionAndEncoding | java/tsfile/src/main/java/org/apache/tsfile/file/header/ChunkHeader.java:255-262 | The partial decode consumes at least one byte and never reads past the input. |
| ChunkLayout.PartialDecodeAgrees | java/tsfile/src/main/java/org/apache/tsfile/file/header/ChunkHeader.java:255-262 | The partial decode succeeds exactly when the full decode of the fields after the id succeeds. It then returns that decode's compression and encoding tags and stops at the same position. |
| ChunkLayout.PartialDecodeEncoded | java/tsfile/src/main/java/org/apache/tsfile/file/header/ChunkHeader.java:255-262 | Started after the id of an encoded header, the partial decode returns that header's compression and encoding tags and stops at the end of the encoding. |
| ChunkHeaders.ChunkHeader.WithPages | java/tsfile/src/main/java/org/apache/tsfile/file/header/ChunkHeader.java:68-76 | The fields are as given, with the chunk type derived from the page count and mask 0. The page count is stored, and the cached size is the exact size. |
| ChunkHeaders.ChunkHeader.WithMask | java/tsfile/src/main/java/org/apache/tsfile/file/header/ChunkHeader.java:78-97 | The fields are as given, with the chunk type derived from the page count OR-ed with the mask. The page count is stored, and the cached size is the exact size. |
| ChunkHeaders.ChunkHeader.WithChunkType | java/tsfile/src/main/java/org/apache/tsfile/file/header/ChunkHeader.java:99-114 | The fields are as given, there are no pages, and the cached size is the exact size. |
| ChunkHeaders.ChunkHeader.WithHeaderSize | java/tsfile/src/main/java/org/apache/tsfile/file/header/ChunkHeader.java:116-131 | The fields are as given, there are no pages, and the cached size is the caller's header size, unchecked. |
| ChunkHeaders.ChunkHeader.SerializeTo | java/tsfile/src/main/java/org/apache/tsfile/file/header/ChunkHeader.java:287-296 | The stream gains exactly `Encode(Fields())`. The returned length is the exact size, and it equals the cached size whenever that is still exact. |
| ChunkHeaders.ChunkHeader.SerializeToBuffer | java/tsfile/src/main/java/org/apache/tsfile/file/header/ChunkHeader.java:304-313 | When the buffer has room, the encoding is put at its position, the position advances by the exact size, and that size is returned. Otherwise the write fails with an overflow, and the bytes before the old position are untouched. |
| ChunkHeaders.ChunkHeader.PutTail | java/tsfile/src/main/java/org/apache/tsfile/file/header/ChunkHeader.java:308-311 | The dataSize varint and the three tags go at the buffer's position, or the write overflows and leaves the earlier bytes untouched. |
| ChunkHeaders.ChunkHeader.MergeChunkHeader | java/tsfile/src/main/java/org/apache/tsfile/file/header/ChunkHeader.java:348-351 | Both counters become the int-wrapped sums with the other header's old counters, also when the other header is this one. The marker and the id are unchanged. |
| ChunkHeaders.ChunkHeader.SetDataSize | java/tsfile/src/main/java/org/apache/tsfile/file/header/ChunkHeader.java:353-355 | dataSize becomes the given value. The marker, the id and the page count are unchanged. |
| ChunkHeaders.ChunkHeader.SetChunkType | java/tsfile/src/main/java/org/apache/tsfile/file/header/ChunkHeader.java:361-363 | The chunk type becomes the given byte. The id, dataSize and the page count are unchanged. |
| ChunkHeaders.ChunkHeader.SetMeasurementID | java/tsfile/src/main/java/org/apache/tsfile/file/header/ChunkHeader.java:268-270 | The id becomes the given one. The marker, dataSize and the page count are unchanged. |
| ChunkHeaders.ChunkHeader.IncreasePageNums | java/tsfile/src/main/java/org/apache/tsfile/file/header/ChunkHeader.java:365-367 | The page count grows by i, with int wrap-around. The other fields are unchanged. |
| Counters.Wrap32 | java/tsfile/src/main/java/org/apache/tsfile/file/header/ChunkHeader.java:349-350 | Java int addition: the result differs from the true sum by a multiple of 2^32. It equals the sum when the sum is in range, and the sum minus 2^32 just above the range. |
| Counters.Merge | java/tsfile/src/main/java/org/apache/tsfile/file/header/ChunkHeader.java:349-350 | The counters after mergeChunkHeader: both are the int-wrapped sums. It has no contract of its own. Its meaning is carried by MergeAssociative, MergeAllSums and MergeAllExact, and by MergeChunkHeader, whose ensures is written in terms of it. |
| Counters.MergeAssociative | java/tsfile/src/main/java/org/apache/tsfile/file/header/ChunkHeader.java:348-351 | Merging is associative, wrap-around included. |
| Counters.MergeAllSums | java/tsfile/src/main/java/org/apache/tsfile/file/header/ChunkHeader.java:348-351 | A left-to-right sequence of merges gives the accumulator's counters plus the sums of all merged counters, wrapped once. |
| Counters.MergeAllExact | java/tsfile/src/main/java/org/apache/tsfile/file/header/ChunkHeader.java:348-351 | When the totals fit in an int, a sequence of merges yields the plain sums. |
| Counters.MergeAllConcat | java/tsfile/src/main/java/org/apache/tsfile/file/header/ChunkHeader.java:348-351 | Merging xs and then ys is merging xs + ys. |
| ChunkHeaders.DeserializeFrom | java/tsfile/src/main/java/org/apache/tsfile/file/header/ChunkHeader.java:173-182 | The stream decode succeeds exactly when `DecodeBody` does, with its fields, the caller's chunk type, no pages and the exact size. The stream stops where `DecodeBody` ends. On failure it returns the same error. |
| ChunkHeaders.DeserializeCompressionTypeAndEncoding | java/tsfile/src/main/java/org/apache/tsfile/file/header/ChunkHeader.java:255-262 | The partial decode returns what `DecodeCompressionAndEncoding` returns and leaves the stream where that function ends. |
| OffsetRead.RemainingBytes | java/tsfile/src/main/java/org/apache/tsfile/file/header/ChunkHeader.java:218-224 | The second read's size is the id length plus 8. It is negative exactly when the decoded length is below -8, or when it is 2^31 - 8 or more and the int sum wraps around. Either way `ByteBuffer.allocate` then throws, which the model reports as `BadBufferSize`. |
| OffsetRead.RemainingBytesWraps | java/tsfile/src/main/java/org/apache/tsfile/file/header/ChunkHeader.java:218-224 | That size is the Java int sum, wrap-around included. |
| OffsetRead.RemainingBytesNegative | java/tsfile/src/main/java/org/apache/tsfile/file/header/ChunkHeader.java:218-224 | The size is negative exactly when the decoded length is below -8 or above 2^31 - 9. |
| OffsetRead.ReadProbe | java/tsfile/src/main/java/org/apache/tsfile/file/header/ChunkHeader.java:209-216 | The first read consumes the marker and the id's length prefix: more than one byte and at most the six fetched. |
| OffsetRead.ProbeAgrees | java/tsfile/src/main/java/org/apache/tsfile/file/header/ChunkHeader.java:209-216 | The six fetched bytes always suffice. Reading the marker and the length from them succeeds exactly when reading them from the whole file does, with the same values. |
| OffsetRead.RecordedSize | java/tsfile/src/main/java/org/apache/tsfile/file/header/ChunkHeader.java:226-228 | The recorder is given a value exactly when the first read succeeds and the second read's size is not negative. |
| OffsetRead.DecodeRest | java/tsfile/src/main/java/org/apache/tsfile/file/header/ChunkHeader.java:235-240 | The fields after the length prefix: an id of exactly the probed length, then a tail of 4 to 8 bytes, never past the input. |
| OffsetRead.DecodeSecondRead | java/tsfile/src/main/java/org/apache/tsfile/file/header/ChunkHeader.java:218-243 | It succeeds only after a successful first read and a non-negative second-read size. The result keeps the probed chunk type and has an id of the probed length. It ends within the file, at least 4 bytes after the id and at most at the end of the second read. |
| OffsetRead.OffsetDecode | java/tsfile/src/main/java/org/apache/tsfile/file/header/ChunkHeader.java:205-244 | The two-read decode. On success the header ends within the file, 6 to 14 bytes plus the id length after the offset. |
| OffsetRead.OffsetDecodeWithoutProbe | java/tsfile/src/main/java/org/apache/tsfile/file/header/ChunkHeader.java:209-216 | A failed first read fails the whole decode with its error, and nothing is recorded. |
| OffsetRead.OffsetDecodeAfterProbe | java/tsfile/src/main/java/org/apache/tsfile/file/header/ChunkHeader.java:218-231 | After the first read, a negative size fails the decode before the recorder is called. Otherwise the decode is the second read, and the recorder gets the probe bytes used plus that size. |
| OffsetRead.SecondReadViaFile | java/tsfile/src/main/java/org/apache/tsfile/file/header/ChunkHeader.java:230-243 | Whatever the second read decodes is what the whole file decodes after the probe. The second read succeeds whenever that decode ends within it. |
| OffsetRead.SecondReadSize | java/tsfile/src/main/java/org/apache/tsfile/file/header/ChunkHeader.java:230-243 | A successful decode has an id of the probed length and a header size between the probe bytes plus the id plus 4 and the probe bytes consumed plus the size of the second read. |
| OffsetRead.OffsetDecodeSound | java/tsfile/src/main/java/org/apache/tsfile/file/header/ChunkHeader.java:205-244 | When the two-read decode succeeds, it equals the decode of the whole file at the offset, end position included. |
| OffsetRead.OffsetDecodeComplete | java/tsfile/src/main/java/org/apache/tsfile/file/header/ChunkHeader.java:205-244 | Every header the whole file holds at the offset, with an id shorter than 2^31 - 8 bytes, is decoded by the two reads to the same fields and the same end. |
| OffsetRead.OffsetDecodeRejectsLongIds | java/tsfile/src/main/java/org/apache/tsfile/file/header/ChunkHeader.java:218-228 | A header whose id has 2^31 - 8 bytes or more fails with a bad buffer size, and nothing is recorded. |
| OffsetRead.RecordedSizeCoversHeader | java/tsfile/src/main/java/org/apache/tsfile/file/header/ChunkHeader.java:226-243 | After a successful decode, the recorded value is the probe bytes used plus the id length plus 8. That is at least the true header size and at most 4 bytes more. |
| OffsetRead.OffsetDecodeEncoded | java/tsfile/src/main/java/org/apache/tsfile/file/header/ChunkHeader.java:205-244 | A header encoded at the offset decodes back to its fields and ends where its encoding ends. The recorder gets the estimated size getSerializedSize(id), which is at least the encoded length. |
| OffsetRead.NonCanonicalSizes | java/tsfile/src/main/java/org/apache/tsfile/file/header/ChunkHeader.java:230-241 | For `[1, 0, 0x80, 0x00, 7, 8, 9]`, where dataSize 0 takes two bytes, the offset decode returns the empty id and ends at 7. The exact size that the stream decode caches for the same fields is 6. |
| Streams.SizeRecorder.Accept | java/tsfile/src/main/java/org/apache/tsfile/file/header/ChunkHeader.java:226-228 | Each call appends the value given to the values received. |
| ChunkHeaders.ReadFirst | java/tsfile/src/main/java/org/apache/tsfile/file/header/ChunkHeader.java:209-216 | The first positioned read and the two reads from its buffer compute `ReadProbe`. |
| ChunkHeaders.ReadRest | java/tsfile/src/main/java/org/apache/tsfile/file/header/ChunkHeader.java:235-240 | The reads from the second buffer follow `DecodeRest` and leave the cursor where it ends. |
| ChunkHeaders.ReadSecond | java/tsfile/src/main/java/org/apache/tsfile/file/header/ChunkHeader.java:230-243 | The second read yields a fresh header with the decoded fields and no pages. Its size is the bytes the two reads consumed, and on failure it returns the same error. |
| ChunkHeaders.ReadAfterProbe | java/tsfile/src/main/java/org/apache/tsfile/file/header/ChunkHeader.java:218-243 | The size check, the recorder call (once, only when the size is valid) and the second read, as `DecodeSecondRead` specifies. |
| ChunkHeaders.DeserializeFromFileRecorded | java/tsfile/src/main/java/org/apache/tsfile/file/header/ChunkHeader.java:205-244 | The offset decode succeeds exactly when `OffsetDecode` does, with its fields, no pages and a header size of the bytes consumed. On failure it returns the same error. A recorder, if given, receives `RecordedSize` once when that exists and nothing otherwise. |
| ChunkHeaders.DeserializeFromFile | java/tsfile/src/main/java/org/apache/tsfile/file/header/ChunkHeader.java:192-194 | The same decode with no recorder. |

## Left out

- The character set. A measurement id is modelled as its encoded bytes, a `seq<byte>` of at most 2^31 - 1 bytes. Encoding strings into that charset is not modelled.
- A null measurement id. getSerializedSize(id, dataSize) counts a null id as 0 bytes, and the library's string readers turn a negative length into null. The model has no null id. A negative length read from the input fails with `NegativeLength`.
- The varint and string helpers of ReadWriteIOUtils and ReadWriteForEncodingUtils are not part of this model. `VarInt` and `ByteIO` define them as the format uses them:
  - base-128 groups, least significant first, at most five;
  - a fifth group that still sets the continuation bit is malformed;
  - bits beyond the 32nd are dropped.
- The enum tags TSDataType, CompressionType and TSEncoding are opaque bytes. Their value sets and the exceptions for unknown tags are not modelled.
- Java int sums are unbounded integers here, and their overflow is not modelled. Three sums are affected:
  - getSerializedSize(id) and getSerializedSize(id, dataSize) (`EstimatedSize`, `ExactSize`);
  - the header size `alreadyReadLength + buffer.position()` of the offset decode, which is `serializedSize` and `WithHeaderSize`'s `headerSize`, typed `int` here;
  - the `length` serializeTo adds up, a `nat` in `SerializeTo` and `SerializeToBuffer`.
  Each of them can only overflow for an id near 2^31 bytes, that is, only for ids within 14 bytes of 2^31, at the JVM's array-size limit.
- `ByteBuffer`: the limit is the capacity.
- ChunkHeaders.ChunkHeader.SerializeToBuffer: on overflow, the contract states only that the bytes before the starting position are kept. It does not state the partial bytes written or the final position, which Java leaves wherever the failing put stopped.
- ChunkHeaders.ChunkHeader.PutTail: on overflow, likewise only the bytes before the starting position are stated.
- `TsFileInput`: modelled as the file's bytes. A positioned read returns as many bytes as the buffer holds and the file still has (`ReadAt`). A read that comes back short makes a later parse fail with `ShortRead`, as the buffer underflow does in Java. I/O errors (IOException) are not modelled.
- `ByteBuffer.allocate` with a negative size: it throws in Java, and the model returns `BadBufferSize`. Running out of memory on a large allocation is not modelled.
- Getters, toString and INSTANCE_SIZE: they compute nothing about the format.
- MetaMarker is not part of this model. Its two marker values, 1 and 5, are constants in `ChunkLayout`.
