/** Failure values shared by the chunk-header codec and its byte readers. */
module Results {

  /** Why a decode or an encode did not complete. */
  datatype Error =
    | ShortRead          // fewer bytes available than the field needs (an IOException or buffer underflow)
    | MalformedVarInt    // a varint whose fifth 7-bit group still carries the continuation bit
    | NegativeLength     // a string length prefix below zero (the library's null string)
    | BadBufferSize      // a read-buffer size that is negative or wraps a 32-bit int
    | BufferOverflow     // a fixed-capacity output buffer without room for the next write

  datatype Result<T> = Ok(value: T) | Err(error: Error) {
    predicate IsFailure() {
      Err?
    }

    function PropagateFailure<U>(): Result<U>
      requires Err?
    {
      Err(error)
    }

    function Extract(): T
      requires Ok?
    {
      value
    }
  }

  /** A value decoded from a byte sequence and the position just after it. */
  datatype Parsed<T> = Parsed(value: T, next: nat)

  /**
   * The parse of the window s[lo..hi] (result `w`, positions relative to lo) agrees with the
   * parse of the whole sequence (result `full`): a successful window parse is a successful
   * full parse, and a full parse that stays below hi succeeds in the window too.
   */
  ghost predicate WindowAgrees<T>(w: Result<Parsed<T>>, full: Result<Parsed<T>>, lo: nat, hi: nat) {
    && (w.Ok? ==> full == Ok(Parsed(w.value.value, w.value.next + lo)))
    && (full.Ok? && full.value.next <= hi ==> w.Ok? && w.value.value == full.value.value && w.value.next + lo == full.value.next)
  }

  /** A parse result with its end position moved by the offset its input was read from. */
  function Shifted<T>(r: Result<Parsed<T>>, delta: nat): (s: Result<Parsed<T>>)
    ensures s.Ok? <==> r.Ok?
  {
    match r
    case Ok(p) => Ok(Parsed(p.value, p.next + delta))
    case Err(e) => Err(e)
  }

  /**
   * A window parse shifted back into the whole input: when it succeeds it is the full parse,
   * and it succeeds whenever the full parse ends inside the window.
   */
  lemma ShiftedWindow<T>(w: Result<Parsed<T>>, full: Result<Parsed<T>>, lo: nat, hi: nat)
    requires WindowAgrees(w, full, lo, hi)
    ensures Shifted(w, lo).Ok? ==> Shifted(w, lo) == full
    ensures full.Ok? && full.value.next <= hi ==> Shifted(w, lo) == full
  {
  }

  /** A method result `r` and stream position `pos` that match the pure parse `spec`. */
  ghost predicate Follows<T>(r: Result<T>, spec: Result<Parsed<T>>, pos: nat) {
    match spec
    case Ok(p) => r == Ok(p.value) && pos == p.next
    case Err(e) => r == Err(e)
  }
}
