/** Optional values, used wherever the source has a null pointer or a failed lookup. */
module Wrappers {
  datatype Option<T> = None | Some(value: T)
  {
    function GetOr(default: T): (r: T)
      ensures this.Some? ==> r == value
      ensures this.None? ==> r == default
    {
      match this
      case None => default
      case Some(v) => v
    }
  }
}

/** Octets and fixed-width machine integers. */
module Bytes {
  import opened Wrappers

  newtype byte = x: int | 0 <= x < 256

  const TwoTo32: int := 0x1_0000_0000
  const TwoTo64: int := 0x1_0000_0000_0000_0000

  type uint32 = x: int | 0 <= x < 0x1_0000_0000
  type uint64 = x: int | 0 <= x < 0x1_0000_0000_0000_0000

  /** Unsigned 64-bit arithmetic wraps modulo 2^64. */
  function Wrap64(x: int): (r: uint64)
    ensures 0 <= x < TwoTo64 ==> r == x
  {
    x % TwoTo64
  }

  /**
   * Conversion of an unsigned 64-bit value to a 32-bit `int`: the low
   * 32 bits, read as two's complement.
   */
  function ToInt32(x: uint64): (r: int)
    ensures -0x8000_0000 <= r < 0x8000_0000
    ensures x < 0x8000_0000 ==> r == x
  {
    var low := x % TwoTo32;
    if low < 0x8000_0000 then low else low - TwoTo32
  }

  /** A whole-number percentage of a part no larger than the whole is at most 100. */
  lemma PercentAtMost(part: nat, whole: nat)
    requires 0 < whole && part <= whole
    ensures part * 100 / whole <= 100
  {
    var q := part * 100 / whole;
    assert q * whole <= part * 100 <= whole * 100;
  }

  /** Whole-number division by a positive divisor does not grow a natural number. */
  lemma DivAtMost(a: nat, b: nat)
    requires 0 < b
    ensures a / b <= a
  {
    var q := a / b;
    assert a == q * b + a % b;
    MulAtLeast(q, b);
  }

  lemma {:induction false} MulAtLeast(q: nat, b: nat)
    requires 1 <= b
    ensures q <= q * b
    decreases b
  {
    if b > 1 {
      MulAtLeast(q, b - 1);
      assert q * b == q * (b - 1) + q;
    }
  }

  /** Sum of the lengths of a list of chunks. */
  function TotalLength(chunks: seq<seq<byte>>): nat {
    if |chunks| == 0 then 0 else TotalLength(chunks[..|chunks| - 1]) + |chunks[|chunks| - 1]|
  }

  /** The chunks laid end to end. */
  function Concat(chunks: seq<seq<byte>>): (r: seq<byte>)
    ensures |r| == TotalLength(chunks)
  {
    if |chunks| == 0 then [] else Concat(chunks[..|chunks| - 1]) + chunks[|chunks| - 1]
  }

  /**
   * Whether a local file read in pieces of `piece` bytes meets a failing
   * read before its end: `readsOk` is the number of reads that succeed
   * before one fails, `None` when none fails.
   */
  predicate ReadFails(content: seq<byte>, piece: nat, readsOk: Option<nat>) {
    readsOk.Some? && readsOk.value * piece < |content|
  }

  /**
   * The bytes the reads deliver: a failing read returns no bytes, which
   * the reading loop cannot tell from the end of the file.
   */
  function ReadablePart(content: seq<byte>, piece: nat, readsOk: Option<nat>): (r: seq<byte>)
    ensures r <= content
    ensures r == content <==> !ReadFails(content, piece, readsOk)
    ensures ReadFails(content, piece, readsOk) ==> |r| == readsOk.value * piece
  {
    if ReadFails(content, piece, readsOk) then content[..readsOk.value * piece] else content
  }
}
