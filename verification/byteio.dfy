/**
 * Fixed-width and length-prefixed fields read from a byte sequence at a position: single
 * bytes (the enum tags, each one byte wide), raw byte runs, skips, and the measurement id
 * written as a zig-zag varint length followed by its bytes.
 */
module ByteIO {
  import opened Results
  import opened VarInt

  /** A string's encoded bytes; a Java byte array holds at most 2^31 - 1 of them. */
  type ByteString = s: seq<byte> | |s| <= INT32_MAX

  /** One byte at pos (a tag or the marker). */
  function ReadByte(s: seq<byte>, pos: nat): (r: Result<Parsed<byte>>)
    ensures r.Ok? <==> pos < |s|
    ensures r.Ok? ==> r.value == Parsed(s[pos], pos + 1)
  {
    if pos < |s| then Ok(Parsed(s[pos], pos + 1)) else Err(ShortRead)
  }

  /** Exactly n bytes from pos, or a short read when fewer remain. */
  function ReadBytes(s: seq<byte>, pos: nat, n: nat): (r: Result<Parsed<seq<byte>>>)
    ensures r.Ok? <==> pos + n <= |s|
    ensures r.Ok? ==> |r.value.value| == n && r.value.next == pos + n
  {
    if pos + n <= |s| then Ok(Parsed(s[pos..pos + n], pos + n)) else Err(ShortRead)
  }

  /** Skips n bytes, failing when fewer remain. */
  function Skip(s: seq<byte>, pos: nat, n: nat): (r: Result<nat>)
    ensures r.Ok? <==> pos + n <= |s|
    ensures r.Ok? ==> r.value == pos + n
  {
    if pos + n <= |s| then Ok(pos + n) else Err(ShortRead)
  }

  /**
   * readStringWithLength: a string of len bytes from pos. A negative length is the
   * library's null string, which this model rejects (see NegativeLength).
   */
  function ReadStringWithLength(s: seq<byte>, pos: nat, len: int32): (r: Result<Parsed<ByteString>>)
    ensures r.Ok? <==> 0 <= len && pos + len <= |s|
    ensures r.Ok? ==> |r.value.value| == len && r.value.next == pos + len
  {
    if len < 0 then Err(NegativeLength)
    else
      var b :- ReadBytes(s, pos, len);
      Ok(Parsed(b.value, b.next))
  }

  /** readVarIntString: a zig-zag varint length, then that many bytes. */
  function ReadVarIntString(s: seq<byte>, pos: nat): (r: Result<Parsed<ByteString>>)
    ensures r.Ok? ==> pos < r.value.next <= |s|
  {
    var len :- ReadVarInt(s, pos);
    ReadStringWithLength(s, len.next, len.value)
  }

  /** writeVar: the bytes written for an id, its length prefix and then the id itself. */
  function VarStringBytes(id: ByteString): (bs: seq<byte>)
    ensures |bs| == VarIntSize(|id|) + |id|
  {
    VarIntBytes(|id|) + id
  }

  /** Round trip: an id written by VarStringBytes reads back whole, whatever follows it. */
  lemma ReadVarIntStringEncoded(s: seq<byte>, pos: nat, id: ByteString)
    requires pos + |VarStringBytes(id)| <= |s|
    requires s[pos..pos + |VarStringBytes(id)|] == VarStringBytes(id)
    ensures ReadVarIntString(s, pos) == Ok(Parsed(id, pos + |VarStringBytes(id)|))
  {
    var n := VarIntSize(|id|);
    var end := pos + |VarStringBytes(id)|;
    assert s[pos..pos + n] == VarIntBytes(|id|) by {
      assert s[pos..pos + n] == s[pos..end][..n];
    }
    ReadVarIntEncoded(s, pos, |id|);
    assert s[pos + n..end] == id by {
      assert s[pos + n..end] == s[pos..end][n..];
    }
  }

  lemma AppendAssociative(a: seq<byte>, b: seq<byte>, c: seq<byte>)
    ensures (a + b) + c == a + (b + c)
  {
  }

  /** A slice of a slice is a slice of the original. */
  lemma SliceOfSlice(s: seq<byte>, lo: nat, hi: nat, i: nat, j: nat)
    requires lo <= hi <= |s| && i <= j <= hi - lo
    ensures s[lo..hi][i..j] == s[lo + i..lo + j]
  {
    var a, b := s[lo..hi][i..j], s[lo + i..lo + j];
    forall k | 0 <= k < j - i
      ensures a[k] == b[k]
    {
      assert a[k] == s[lo..hi][i + k];
    }
  }

  /** A slice holding a + b holds a at its start and b right after. */
  lemma SplitSlice(s: seq<byte>, lo: nat, hi: nat, a: seq<byte>, b: seq<byte>)
    requires lo <= hi <= |s| && s[lo..hi] == a + b
    ensures s[lo..lo + |a|] == a && s[lo + |a|..hi] == b
  {
    SliceOfSlice(s, lo, hi, 0, |a|);
    SliceOfSlice(s, lo, hi, |a|, hi - lo);
  }

  /** A slice of three given bytes holds them at its three positions. */
  lemma ThreeBytes(s: seq<byte>, pos: nat, a: byte, b: byte, c: byte)
    requires pos + 3 <= |s| && s[pos..pos + 3] == [a, b, c]
    ensures s[pos] == a && s[pos + 1] == b && s[pos + 2] == c
  {
    assert s[pos + 1] == s[pos..pos + 3][1];
    assert s[pos + 2] == s[pos..pos + 3][2];
  }

  lemma ReadByteWindow(s: seq<byte>, lo: nat, hi: nat, pos: nat)
    requires lo <= pos && lo <= hi <= |s|
    ensures WindowAgrees(ReadByte(s[lo..hi], pos - lo), ReadByte(s, pos), lo, hi)
  {
  }

  lemma ReadBytesWindow(s: seq<byte>, lo: nat, hi: nat, pos: nat, n: nat)
    requires lo <= pos && lo <= hi <= |s|
    ensures WindowAgrees(ReadBytes(s[lo..hi], pos - lo, n), ReadBytes(s, pos, n), lo, hi)
  {
    if pos + n <= hi {
      SliceOfSlice(s, lo, hi, pos - lo, pos - lo + n);
    }
  }

  lemma ReadStringWithLengthWindow(s: seq<byte>, lo: nat, hi: nat, pos: nat, len: int32)
    requires lo <= pos && lo <= hi <= |s|
    ensures WindowAgrees(ReadStringWithLength(s[lo..hi], pos - lo, len), ReadStringWithLength(s, pos, len), lo, hi)
  {
    if len >= 0 {
      ReadBytesWindow(s, lo, hi, pos, len);
    }
  }
}
