/**
 * The two header fields that change after construction, dataSize and numOfPages, and the
 * merge that adds them up. Both are Java ints, so every addition wraps around modulo 2^32.
 */
module Counters {
  import opened VarInt

  /** Java int addition: the mathematical sum brought back into the int range. */
  function Wrap32(x: int): (r: int32)
    ensures (r - x) % 0x1_0000_0000 == 0
    ensures -0x8000_0000 <= x <= INT32_MAX ==> r == x
    ensures INT32_MAX < x < 0x1_8000_0000 ==> r == x - 0x1_0000_0000
  {
    (x + 0x8000_0000) % 0x1_0000_0000 - 0x8000_0000
  }

  /** Wrapping a partial sum early does not change the wrapped total. */
  lemma WrapAdd(x: int, y: int)
    ensures Wrap32(Wrap32(x) + y) == Wrap32(x + y)
  {
    var d := Wrap32(x) - x;
    assert d % 0x1_0000_0000 == 0;
    assert (Wrap32(x) + y + 0x8000_0000) == (x + y + 0x8000_0000) + d;
    ModPeriodic(x + y + 0x8000_0000, d / 0x1_0000_0000);
  }

  /** Adding whole multiples of 2^32 leaves the residue unchanged. */
  lemma {:induction false} ModPeriodic(a: int, k: int)
    ensures (a + k * 0x1_0000_0000) % 0x1_0000_0000 == a % 0x1_0000_0000
    decreases if k < 0 then -k else k
  {
    if k > 0 {
      ModPeriodic(a, k - 1);
      assert a + k * 0x1_0000_0000 == (a + (k - 1) * 0x1_0000_0000) + 0x1_0000_0000;
    } else if k < 0 {
      ModPeriodic(a, k + 1);
      assert a + (k + 1) * 0x1_0000_0000 == (a + k * 0x1_0000_0000) + 0x1_0000_0000;
    }
  }

  /** The mutable counters of a chunk header. */
  datatype Counts = Counts(dataSize: int32, numOfPages: int32)

  /** mergeChunkHeader: both counters of the other header are added, with int wrap-around. */
  function Merge(a: Counts, b: Counts): Counts {
    Counts(Wrap32(a.dataSize + b.dataSize), Wrap32(a.numOfPages + b.numOfPages))
  }

  /** Merging headers one after another, left to right, into acc. */
  function MergeAll(acc: Counts, hs: seq<Counts>): Counts
    decreases |hs|
  {
    if |hs| == 0 then acc else MergeAll(Merge(acc, hs[0]), hs[1..])
  }

  function SumDataSize(hs: seq<Counts>): int
    decreases |hs|
  {
    if |hs| == 0 then 0 else hs[0].dataSize + SumDataSize(hs[1..])
  }

  function SumNumOfPages(hs: seq<Counts>): int
    decreases |hs|
  {
    if |hs| == 0 then 0 else hs[0].numOfPages + SumNumOfPages(hs[1..])
  }

  /**
   * Merging is associative: merging b and c first and then into a gives the same counters as
   * merging b into a and then c, wrap-around included.
   */
  lemma MergeAssociative(a: Counts, b: Counts, c: Counts)
    ensures Merge(Merge(a, b), c) == Merge(a, Merge(b, c))
  {
    MergeLeft(a, b, c);
    MergeRight(a, b, c);
  }

  /** Two merges from the left wrap the three-way sums once. */
  lemma MergeLeft(a: Counts, b: Counts, c: Counts)
    ensures Merge(Merge(a, b), c)
         == Counts(Wrap32(a.dataSize + b.dataSize + c.dataSize), Wrap32(a.numOfPages + b.numOfPages + c.numOfPages))
  {
    WrapAdd(a.dataSize + b.dataSize, c.dataSize);
    WrapAdd(a.numOfPages + b.numOfPages, c.numOfPages);
  }

  /** Two merges from the right wrap the same three-way sums once. */
  lemma MergeRight(a: Counts, b: Counts, c: Counts)
    ensures Merge(a, Merge(b, c))
         == Counts(Wrap32(a.dataSize + b.dataSize + c.dataSize), Wrap32(a.numOfPages + b.numOfPages + c.numOfPages))
  {
    WrapAdd(b.dataSize + c.dataSize, a.dataSize);
    WrapAdd(b.numOfPages + c.numOfPages, a.numOfPages);
    assert Wrap32(b.dataSize + c.dataSize) + a.dataSize == a.dataSize + Wrap32(b.dataSize + c.dataSize);
    assert Wrap32(b.numOfPages + c.numOfPages) + a.numOfPages == a.numOfPages + Wrap32(b.numOfPages + c.numOfPages);
  }

  /**
   * A left-to-right sequence of merges adds every header's counters to the accumulator's,
   * wrapped once at the end.
   */
  lemma {:induction false} MergeAllSums(acc: Counts, hs: seq<Counts>)
    ensures MergeAll(acc, hs)
         == Counts(Wrap32(acc.dataSize + SumDataSize(hs)), Wrap32(acc.numOfPages + SumNumOfPages(hs)))
    decreases |hs|
  {
    if |hs| > 0 {
      var next := Merge(acc, hs[0]);
      MergeAllSums(next, hs[1..]);
      WrapAdd(acc.dataSize + hs[0].dataSize, SumDataSize(hs[1..]));
      WrapAdd(acc.numOfPages + hs[0].numOfPages, SumNumOfPages(hs[1..]));
    }
  }

  /** Without overflow, a sequence of merges yields the plain sums. */
  lemma MergeAllExact(acc: Counts, hs: seq<Counts>)
    requires -0x8000_0000 <= acc.dataSize + SumDataSize(hs) <= INT32_MAX
    requires -0x8000_0000 <= acc.numOfPages + SumNumOfPages(hs) <= INT32_MAX
    ensures MergeAll(acc, hs).dataSize == acc.dataSize + SumDataSize(hs)
    ensures MergeAll(acc, hs).numOfPages == acc.numOfPages + SumNumOfPages(hs)
  {
    MergeAllSums(acc, hs);
  }

  /** Merging the headers of xs and then those of ys is merging the headers of xs + ys. */
  lemma {:induction false} MergeAllConcat(acc: Counts, xs: seq<Counts>, ys: seq<Counts>)
    ensures MergeAll(acc, xs + ys) == MergeAll(MergeAll(acc, xs), ys)
    decreases |xs|
  {
    if |xs| > 0 {
      assert (xs + ys)[1..] == xs[1..] + ys;
      MergeAllConcat(Merge(acc, xs[0]), xs[1..], ys);
    } else {
      assert xs + ys == ys;
    }
  }
}
