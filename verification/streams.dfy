/**
 * The byte sources and sinks the chunk header is read from and written to: a cursor over
 * readable bytes (an InputStream, or a ByteBuffer after flip), a growing output stream, a
 * fixed-capacity ByteBuffer being filled, and a positioned read of a file.
 */
module Streams {
  import opened Results
  import opened VarInt
  import opened ByteIO

  /**
   * A byte source read front to back: an InputStream, or a ByteBuffer after flip. data are
   * the readable bytes and pos the cursor. Each read is specified by the pure parse of the
   * same field at the cursor.
   */
  class ReadCursor {
    const data: seq<byte>
    var pos: nat

    ghost predicate Valid()
      reads this
    {
      pos <= |data|
    }

    constructor (data: seq<byte>)
      ensures this.data == data && pos == 0 && Valid()
    {
      this.data := data;
      pos := 0;
    }

    /** read() or get(): one byte, or a short read at the end of the data. */
    method ReadByte() returns (r: Result<byte>)
      requires Valid()
      modifies this
      ensures Valid() && Follows(r, ByteIO.ReadByte(data, old(pos)), pos)
      ensures r.Err? ==> pos == old(pos)
    {
      if pos < |data| {
        r := Ok(data[pos]);
        pos := pos + 1;
      } else {
        r := Err(ShortRead);
      }
    }

    /** readStringWithLength: len bytes, rejecting a negative length and a short read. */
    method ReadStringWithLength(len: int32) returns (r: Result<ByteString>)
      requires Valid()
      modifies this
      ensures Valid() && Follows(r, ByteIO.ReadStringWithLength(data, old(pos), len), pos)
      ensures r.Err? ==> pos == old(pos)
    {
      if len < 0 {
        r := Err(NegativeLength);
      } else if pos + len <= |data| {
        r := Ok(data[pos..pos + len]);
        pos := pos + len;
      } else {
        r := Err(ShortRead);
      }
    }

    /** skip(n): advances past n bytes, failing when fewer remain. */
    method Skip(n: nat) returns (r: Result<()>)
      requires Valid()
      modifies this
      ensures Valid()
      ensures r.Ok? <==> ByteIO.Skip(data, old(pos), n).Ok?
      ensures r.Ok? ==> pos == ByteIO.Skip(data, old(pos), n).value
      ensures r.Err? ==> r.error == ShortRead && pos == old(pos)
    {
      if pos + n <= |data| {
        pos := pos + n;
        r := Ok(());
      } else {
        r := Err(ShortRead);
      }
    }

    /**
     * readUnsignedVarInt: seven value bits per byte, low group first, until a byte without
     * the continuation bit. A fifth byte that still carries it is malformed.
     */
    method ReadUnsignedVarInt() returns (r: Result<uint32>)
      requires Valid()
      modifies this
      ensures Valid() && Follows(r, ReadUVarInt(data, old(pos)), pos)
    {
      var k: nat, acc: nat := 0, 0;
      while true
        invariant Valid() && k < MAX_VARINT_BYTES
        invariant ReadUVarIntFrom(data, old(pos), 0, 0) == ReadUVarIntFrom(data, pos, k, acc)
        decreases MAX_VARINT_BYTES - k
      {
        if pos >= |data| {
          return Err(ShortRead);
        }
        var b := data[pos];
        pos := pos + 1;
        if b < 0x80 {
          return Ok((acc + Shift7(b, k)) % UINT32_LIMIT);
        }
        if k == MAX_VARINT_BYTES - 1 {
          return Err(MalformedVarInt);
        }
        acc := acc + Shift7(b - 0x80, k);
        k := k + 1;
      }
    }

    /** readVarInt: an unsigned varint read back through the zig-zag mapping. */
    method ReadVarInt() returns (r: Result<int32>)
      requires Valid()
      modifies this
      ensures Valid() && Follows(r, VarInt.ReadVarInt(data, old(pos)), pos)
    {
      var u := ReadUnsignedVarInt();
      if u.Err? {
        return Err(u.error);
      }
      r := Ok(UnZigZag(u.value));
    }

    /** readVarIntString: a zig-zag varint length, then that many bytes. */
    method ReadVarIntString() returns (r: Result<ByteString>)
      requires Valid()
      modifies this
      ensures Valid() && Follows(r, ByteIO.ReadVarIntString(data, old(pos)), pos)
    {
      var len := ReadVarInt();
      if len.Err? {
        return Err(len.error);
      }
      r := ReadStringWithLength(len.value);
    }
  }

  /** An OutputStream: the bytes written so far. Writes always succeed. */
  class OutputStream {
    var written: seq<byte>

    constructor ()
      ensures written == []
    {
      written := [];
    }

    /** write(b): one byte; returns the number of bytes written. */
    method Write(b: byte) returns (n: nat)
      modifies this
      ensures written == old(written) + [b] && n == 1
    {
      written := written + [b];
      n := 1;
    }

    /** write(bytes): all of them, in order. */
    method WriteBytes(bs: seq<byte>) returns (n: nat)
      modifies this
      ensures written == old(written) + bs && n == |bs|
    {
      written := written + bs;
      n := |bs|;
    }

    /**
     * writeUnsignedVarInt: emits the low seven bits with the continuation bit while more
     * than seven bits remain, then the last group; returns the number of bytes written.
     */
    method WriteUnsignedVarInt(u: uint32) returns (n: nat)
      modifies this
      ensures written == old(written) + UVarIntBytes(u) && n == UVarIntSize(u)
    {
      var v: nat := u;
      n := 1;
      while v >= 0x80
        invariant old(written) + UVarIntBytes(u) == written + UVarIntBytes(v)
        invariant n + UVarIntSize(v) == UVarIntSize(u) + 1
        decreases v
      {
        var _ := Write(v % 0x80 + 0x80);
        assert UVarIntBytes(v) == [v % 0x80 + 0x80] + UVarIntBytes(v / 0x80);
        v := v / 0x80;
        n := n + 1;
      }
      var _ := Write(v);
    }

    /** writeVarInt: the zig-zag mapping of v as an unsigned varint. */
    method WriteVarInt(v: int32) returns (n: nat)
      modifies this
      ensures written == old(written) + VarIntBytes(v) && n == VarIntSize(v)
    {
      n := WriteUnsignedVarInt(ZigZag(v));
    }

    /** writeVar: an id's length as a zig-zag varint, then its bytes. */
    method WriteVar(id: ByteString) returns (n: nat)
      modifies this
      ensures written == old(written) + VarStringBytes(id) && n == |VarStringBytes(id)|
    {
      n := WriteVarInt(|id|);
      var m := WriteBytes(id);
      n := n + m;
    }
  }

  /** The bytes of a with those from position at replaced by b. */
  function Overlay(a: seq<byte>, at: nat, b: seq<byte>): (r: seq<byte>)
    requires at + |b| <= |a|
    ensures |r| == |a|
  {
    a[..at] + b + a[at + |b|..]
  }

  /** Overlay replaces exactly the positions at .. at + |b| - 1, with the bytes of b. */
  lemma OverlayAt(a: seq<byte>, at: nat, b: seq<byte>, i: nat)
    requires at + |b| <= |a| && i < |a|
    ensures Overlay(a, at, b)[i] == if at <= i < at + |b| then b[i - at] else a[i]
  {
  }

  /** Overlaying x and then, right after it, y is overlaying x + y. */
  lemma OverlayConcat(a: seq<byte>, at: nat, x: seq<byte>, y: seq<byte>)
    requires at + |x| + |y| <= |a|
    ensures Overlay(Overlay(a, at, x), at + |x|, y) == Overlay(a, at, x + y)
  {
    var l, r := Overlay(Overlay(a, at, x), at + |x|, y), Overlay(a, at, x + y);
    forall i | 0 <= i < |a|
      ensures l[i] == r[i]
    {
      OverlayAt(a, at, x, i);
      OverlayAt(Overlay(a, at, x), at + |x|, y, i);
      OverlayAt(a, at, x + y, i);
    }
  }

  /** An overlay at or after p leaves the bytes before p as they were. */
  lemma OverlayKeepsPrefix(a: seq<byte>, at: nat, b: seq<byte>, p: nat)
    requires at + |b| <= |a| && p <= at
    ensures Overlay(a, at, b)[..p] == a[..p]
  {
  }

  /**
   * A ByteBuffer being filled: a fixed-capacity array and a write position. Its limit is
   * its capacity; a put past it fails with a buffer overflow.
   */
  class ByteBuffer {
    const buf: array<byte>
    var position: nat

    ghost predicate Valid()
      reads this
    {
      position <= buf.Length
    }

    /** allocate(capacity): a zero-filled buffer, positioned at its start. */
    constructor Allocate(capacity: nat)
      ensures fresh(buf) && buf.Length == capacity && position == 0 && Valid()
      ensures forall i :: 0 <= i < capacity ==> buf[i] == 0
    {
      buf := new byte[capacity](_ => 0);
      position := 0;
    }

    /** put(b): one byte at the position, or an overflow that changes nothing. */
    method Put(b: byte) returns (r: Result<nat>)
      requires Valid()
      modifies this, buf
      ensures Valid()
      ensures r.Ok? <==> old(position) < buf.Length
      ensures r.Ok? ==> (r.value == 1 && position == old(position) + 1
                         && buf[..] == Overlay(old(buf[..]), old(position), [b]))
      ensures r.Err? ==> r.error == BufferOverflow && position == old(position) && buf[..] == old(buf[..])
    {
      if position < buf.Length {
        buf[position] := b;
        position := position + 1;
        r := Ok(1);
      } else {
        r := Err(BufferOverflow);
      }
    }

    /** put(bytes): all of them, or, when they do not fit, an overflow that transfers none. */
    method PutAll(bs: seq<byte>) returns (r: Result<nat>)
      requires Valid()
      modifies this, buf
      ensures Valid()
      ensures r.Ok? <==> old(position) + |bs| <= buf.Length
      ensures r.Ok? ==> (r.value == |bs| && position == old(position) + |bs|
                         && buf[..] == Overlay(old(buf[..]), old(position), bs))
      ensures r.Err? ==> r.error == BufferOverflow && position == old(position) && buf[..] == old(buf[..])
    {
      if position + |bs| <= buf.Length {
        forall i | 0 <= i < |bs| {
          buf[position + i] := bs[i];
        }
        position := position + |bs|;
        r := Ok(|bs|);
      } else {
        r := Err(BufferOverflow);
      }
    }

    /**
     * Puts bs one byte at a time, so an overflow leaves the bytes that fitted written and
     * the position at the limit.
     */
    method PutEach(bs: seq<byte>) returns (r: Result<nat>)
      requires Valid()
      modifies this, buf
      ensures Valid()
      ensures r.Ok? <==> old(position) + |bs| <= buf.Length
      ensures r.Ok? ==> (r.value == |bs| && position == old(position) + |bs|
                         && buf[..] == Overlay(old(buf[..]), old(position), bs))
      ensures r.Err? ==> (r.error == BufferOverflow && position == buf.Length
                          && buf[..] == Overlay(old(buf[..]), old(position), bs[..buf.Length - old(position)]))
    {
      var i := 0;
      while i < |bs|
        invariant i <= |bs| && Valid() && position == old(position) + i
        invariant buf[..] == Overlay(old(buf[..]), old(position), bs[..i])
      {
        var put := Put(bs[i]);
        if put.Err? {
          return Err(BufferOverflow);
        }
        OverlayConcat(old(buf[..]), old(position), bs[..i], [bs[i]]);
        assert bs[..i + 1] == bs[..i] + [bs[i]];
        i := i + 1;
      }
      assert bs[..i] == bs;
      r := Ok(i);
    }

    /**
     * writeUnsignedVarInt into the buffer: the varint's bytes, put one at a time, so an
     * overflow leaves the bytes that fitted written and the position at the limit.
     */
    method PutUnsignedVarInt(u: uint32) returns (r: Result<nat>)
      requires Valid()
      modifies this, buf
      ensures Valid()
      ensures r.Ok? <==> old(position) + UVarIntSize(u) <= buf.Length
      ensures r.Ok? ==> (r.value == UVarIntSize(u) && position == old(position) + UVarIntSize(u)
                         && buf[..] == Overlay(old(buf[..]), old(position), UVarIntBytes(u)))
      ensures r.Err? ==> (r.error == BufferOverflow && position == buf.Length
                          && buf[..] == Overlay(old(buf[..]), old(position), UVarIntBytes(u)[..buf.Length - old(position)]))
    {
      r := PutEach(UVarIntBytes(u));
    }

    /**
     * writeVar into the buffer: the id's length as a zig-zag varint, put byte by byte, then
     * the id's bytes in one put that transfers all or nothing.
     */
    method PutVar(id: ByteString) returns (r: Result<nat>)
      requires Valid()
      modifies this, buf
      ensures Valid()
      ensures r.Ok? <==> old(position) + |VarStringBytes(id)| <= buf.Length
      ensures r.Ok? ==> (r.value == |VarStringBytes(id)| && position == old(position) + |VarStringBytes(id)|
                         && buf[..] == Overlay(old(buf[..]), old(position), VarStringBytes(id)))
      ensures r.Err? ==> (r.error == BufferOverflow && old(position) <= position <= buf.Length
                          && buf[..old(position)] == old(buf[..])[..old(position)])
    {
      var n := PutUnsignedVarInt(ZigZag(|id|));
      if n.Err? {
        OverlayKeepsPrefix(old(buf[..]), old(position), VarIntBytes(|id|)[..buf.Length - old(position)], old(position));
        return Err(BufferOverflow);
      }
      var m := PutAll(id);
      if m.Err? {
        OverlayKeepsPrefix(old(buf[..]), old(position), VarIntBytes(|id|), old(position));
        return Err(BufferOverflow);
      }
      OverlayConcat(old(buf[..]), old(position), VarIntBytes(|id|), id);
      r := Ok(n.value + m.value);
    }
  }

  function Min(a: nat, b: nat): nat {
    if a <= b then a else b
  }

  /**
   * TsFileInput.read(buffer, at) for a buffer of n bytes: the file's bytes from at, as many
   * as the buffer holds and the file still has.
   */
  function ReadAt(file: seq<byte>, at: nat, n: nat): (w: seq<byte>)
    ensures |w| == if at <= |file| then Min(n, |file| - at) else 0
  {
    file[Min(at, |file|)..Min(at + n, |file|)]
  }

  /** The I/O size recorder a caller may pass (a LongConsumer): every value it was given, in order. */
  class SizeRecorder {
    var accepted: seq<int>

    constructor ()
      ensures accepted == []
    {
      accepted := [];
    }

    method Accept(n: int)
      modifies this
      ensures accepted == old(accepted) + [n]
    {
      accepted := accepted + [n];
    }
  }
}
