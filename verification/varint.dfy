/**
 * Base-128 variable-length integers, as the chunk header uses them: an unsigned varint for
 * dataSize and a zig-zag signed varint for the measurement-id length prefix. Each byte holds
 * seven value bits, least significant group first; the high bit (0x80) says another byte
 * follows. A 32-bit value takes at most five bytes.
 */
module VarInt {
  import opened Results

  type byte = x: int | 0 <= x < 0x100
  /** The range of a Java int. */
  type int32 = x: int | -0x8000_0000 <= x < 0x8000_0000
  /** A 32-bit pattern read as unsigned. */
  type uint32 = x: int | 0 <= x < 0x1_0000_0000

  const INT32_MAX: int := 0x7FFF_FFFF
  const UINT32_LIMIT: int := 0x1_0000_0000
  /** Five 7-bit groups cover 35 bits, enough for any 32-bit value. */
  const MAX_VARINT_BYTES: nat := 5

  /** The two's-complement bit pattern of a Java int, read as an unsigned number. */
  function ToUnsigned(x: int32): uint32 {
    if x >= 0 then x else x + UINT32_LIMIT
  }

  /** The Java int whose bit pattern is u. */
  function ToSigned(u: uint32): (x: int32)
    ensures ToUnsigned(x) == u
  {
    if u <= INT32_MAX then u else u - UINT32_LIMIT
  }

  lemma SignedRoundTrip(x: int32)
    ensures ToSigned(ToUnsigned(x)) == x
  {
  }

  /** Zig-zag mapping of a signed int to an unsigned one: 0, -1, 1, -2, ... become 0, 1, 2, 3, ... */
  function ZigZag(v: int32): uint32 {
    if v >= 0 then 2 * v else -2 * v - 1
  }

  /** Inverse of ZigZag: the low bit is the sign, the rest the magnitude. */
  function UnZigZag(u: uint32): (v: int32)
    ensures ZigZag(v) == u
  {
    if u % 2 == 0 then u / 2 else -(u + 1) / 2
  }

  lemma ZigZagInjective(v: int32, w: int32)
    ensures ZigZag(v) == ZigZag(w) <==> v == w
    ensures UnZigZag(ZigZag(v)) == v
  {
  }

  function Pow128(n: nat): (p: nat)
    ensures p >= 1
  {
    if n == 0 then 1 else 0x80 * Pow128(n - 1)
  }

  lemma {:induction false} Pow128Monotonic(m: nat, n: nat)
    requires m <= n
    ensures Pow128(m) <= Pow128(n)
    decreases n
  {
    if m < n {
      Pow128Monotonic(m, n - 1);
    }
  }

  /** x shifted left by k groups of seven bits, that is x * 128^k. */
  function Shift7(x: nat, k: nat): nat {
    if k == 0 then x else 0x80 * Shift7(x, k - 1)
  }

  /**
   * Number of bytes of the unsigned varint of u (uVarIntSize): the least number of 7-bit
   * groups that hold u.
   */
  function UVarIntSize(u: nat): (n: nat)
    ensures 1 <= n
    ensures u < Pow128(n)
    ensures n > 1 ==> Pow128(n - 1) <= u
    decreases u
  {
    if u < 0x80 then 1 else 1 + UVarIntSize(u / 0x80)
  }

  /** Number of bytes of the zig-zag varint of v (varIntSize). */
  function VarIntSize(v: int32): nat {
    UVarIntSize(ZigZag(v))
  }

  /** A 32-bit value takes one to five bytes, and five exactly when it is at least 2^28. */
  lemma UVarIntSizeOf32(u: uint32)
    ensures UVarIntSize(u) <= MAX_VARINT_BYTES
    ensures UVarIntSize(u) == MAX_VARINT_BYTES <==> u >= 0x1000_0000
  {
    var n := UVarIntSize(u);
    assert Pow128(4) == 0x1000_0000;
    assert Pow128(5) == 0x8_0000_0000;
    if n > 5 {
      Pow128Monotonic(5, n - 1);
      assert false;
    }
    if n < 5 {
      Pow128Monotonic(n, 4);
    }
  }

  /** The bytes writeUnsignedVarInt emits for u: low groups first, continuation bit on all but the last. */
  function UVarIntBytes(u: nat): (bs: seq<byte>)
    ensures |bs| == UVarIntSize(u)
    decreases u
  {
    if u < 0x80 then [u] else [u % 0x80 + 0x80] + UVarIntBytes(u / 0x80)
  }

  /** The bytes of the zig-zag varint of v (writeVarInt). */
  function VarIntBytes(v: int32): (bs: seq<byte>)
    ensures |bs| == VarIntSize(v)
  {
    UVarIntBytes(ZigZag(v))
  }

  /**
   * Reads the groups of an unsigned varint from position pos, k groups having been read
   * already into acc. A byte below 0x80 ends the number; a fifth byte that does not end it
   * is malformed; running out of bytes is a short read.
   */
  function ReadUVarIntFrom(s: seq<byte>, pos: nat, k: nat, acc: nat): (r: Result<Parsed<nat>>)
    requires k < MAX_VARINT_BYTES
    ensures r.Ok? ==> pos < r.value.next <= |s| && r.value.next <= pos + MAX_VARINT_BYTES - k
    decreases MAX_VARINT_BYTES - k
  {
    if pos >= |s| then Err(ShortRead)
    else if s[pos] < 0x80 then Ok(Parsed(acc + Shift7(s[pos], k), pos + 1))
    else if k == MAX_VARINT_BYTES - 1 then Err(MalformedVarInt)
    else ReadUVarIntFrom(s, pos + 1, k + 1, acc + Shift7(s[pos] - 0x80, k))
  }

  /**
   * readUnsignedVarInt: the unsigned varint at pos. Bits beyond the 32nd, which only a fifth
   * group can carry, are dropped as the shift into a Java int drops them.
   */
  function ReadUVarInt(s: seq<byte>, pos: nat): (r: Result<Parsed<uint32>>)
    ensures r.Ok? ==> pos < r.value.next <= |s| && r.value.next <= pos + MAX_VARINT_BYTES
  {
    var p :- ReadUVarIntFrom(s, pos, 0, 0);
    Ok(Parsed(p.value % UINT32_LIMIT, p.next))
  }

  /** readVarInt: the zig-zag signed varint at pos. */
  function ReadVarInt(s: seq<byte>, pos: nat): (r: Result<Parsed<int32>>)
    ensures r.Ok? ==> pos < r.value.next <= |s| && r.value.next <= pos + MAX_VARINT_BYTES
  {
    var p :- ReadUVarInt(s, pos);
    Ok(Parsed(UnZigZag(p.value), p.next))
  }

  /** Shift7(x, k) is x shifted left by k groups of seven bits. */
  lemma {:induction false} Shift7Linear(a: nat, b: nat, k: nat)
    ensures Shift7(a + b, k) == Shift7(a, k) + Shift7(b, k)
    ensures Shift7(0x80 * a, k) == Shift7(a, k + 1)
  {
    if k > 0 {
      Shift7Linear(a, b, k - 1);
    }
  }

  /** Reading the groups UVarIntBytes(u) wrote, after k groups, adds u shifted by k groups. */
  lemma {:induction false} ReadUVarIntFromEncoded(s: seq<byte>, pos: nat, k: nat, acc: nat, u: nat)
    requires k + UVarIntSize(u) <= MAX_VARINT_BYTES
    requires pos + UVarIntSize(u) <= |s|
    requires s[pos..pos + UVarIntSize(u)] == UVarIntBytes(u)
    ensures ReadUVarIntFrom(s, pos, k, acc) == Ok(Parsed(acc + Shift7(u, k), pos + UVarIntSize(u)))
    decreases u
  {
    var bs := UVarIntBytes(u);
    assert s[pos] == bs[0];
    if u >= 0x80 {
      var q, m := u / 0x80, u % 0x80;
      var acc' := acc + Shift7(m, k);
      assert s[pos + 1..pos + UVarIntSize(u)] == UVarIntBytes(q) by {
        assert bs == [m + 0x80] + UVarIntBytes(q);
        assert s[pos + 1..pos + UVarIntSize(u)] == bs[1..];
      }
      ReadUVarIntFromEncoded(s, pos + 1, k + 1, acc', q);
      assert acc' + Shift7(q, k + 1) == acc + Shift7(u, k) by {
        Shift7Linear(m, 0x80 * q, k);
        Shift7Linear(q, 0, k);
      }
    }
  }

  /** Round trip: the unsigned varint of a 32-bit value reads back as that value, consuming its bytes. */
  lemma ReadUVarIntEncoded(s: seq<byte>, pos: nat, u: uint32)
    requires pos + UVarIntSize(u) <= |s|
    requires s[pos..pos + UVarIntSize(u)] == UVarIntBytes(u)
    ensures ReadUVarInt(s, pos) == Ok(Parsed(u, pos + UVarIntSize(u)))
  {
    UVarIntSizeOf32(u);
    ReadUVarIntFromEncoded(s, pos, 0, 0, u);
  }

  /** Round trip: the zig-zag varint of a 32-bit int reads back as that int. */
  lemma ReadVarIntEncoded(s: seq<byte>, pos: nat, v: int32)
    requires pos + VarIntSize(v) <= |s|
    requires s[pos..pos + VarIntSize(v)] == VarIntBytes(v)
    ensures ReadVarInt(s, pos) == Ok(Parsed(v, pos + VarIntSize(v)))
  {
    ReadUVarIntEncoded(s, pos, ZigZag(v));
    ZigZagInjective(v, v);
  }

  /** Reading groups from a window of s agrees with reading them from s itself. */
  lemma {:induction false} ReadUVarIntFromWindow(s: seq<byte>, lo: nat, hi: nat, pos: nat, k: nat, acc: nat)
    requires lo <= pos && lo <= hi <= |s| && k < MAX_VARINT_BYTES
    ensures WindowAgrees(ReadUVarIntFrom(s[lo..hi], pos - lo, k, acc), ReadUVarIntFrom(s, pos, k, acc), lo, hi)
    decreases MAX_VARINT_BYTES - k
  {
    var w := s[lo..hi];
    if pos < hi {
      assert w[pos - lo] == s[pos];
      if s[pos] >= 0x80 && k < MAX_VARINT_BYTES - 1 {
        var acc' := acc + Shift7(s[pos] - 0x80, k);
        assert ReadUVarIntFrom(w, pos - lo, k, acc) == ReadUVarIntFrom(w, pos + 1 - lo, k + 1, acc');
        assert ReadUVarIntFrom(s, pos, k, acc) == ReadUVarIntFrom(s, pos + 1, k + 1, acc');
        ReadUVarIntFromWindow(s, lo, hi, pos + 1, k + 1, acc');
      }
    }
  }

  lemma ReadUVarIntWindow(s: seq<byte>, lo: nat, hi: nat, pos: nat)
    requires lo <= pos && lo <= hi <= |s|
    ensures WindowAgrees(ReadUVarInt(s[lo..hi], pos - lo), ReadUVarInt(s, pos), lo, hi)
  {
    ReadUVarIntFromWindow(s, lo, hi, pos, 0, 0);
  }

  lemma ReadVarIntWindow(s: seq<byte>, lo: nat, hi: nat, pos: nat)
    requires lo <= pos && lo <= hi <= |s|
    ensures WindowAgrees(ReadVarInt(s[lo..hi], pos - lo), ReadVarInt(s, pos), lo, hi)
  {
    ReadUVarIntWindow(s, lo, hi, pos);
  }
}
