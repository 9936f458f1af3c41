/** The partition arithmetic of `main`: each rank's half-open byte range. */
module Partition {

  /** A half-open byte range `[start, end)` of the file. */
  datatype Range = Range(start: int, end: int)

  /** What the run provides: a file size (as `ftell` gives it) and a group of at least one rank. */
  predicate ValidGroup(fileSize: int, size: int)
  {
    0 <= fileSize && 1 <= size
  }

  /** `chunk_size`: C division of two non-negative numbers, which Dafny's `/` agrees with. */
  function ChunkSize(fileSize: int, size: int): int
    requires ValidGroup(fileSize, size)
  {
    fileSize / size
  }

  /** The raw range of a rank, before any look-back; the last rank absorbs the remainder. */
  function RawRange(fileSize: int, size: int, rank: int): Range
    requires ValidGroup(fileSize, size) && 0 <= rank < size
  {
    var chunk := ChunkSize(fileSize, size);
    Range(rank * chunk, if rank == size - 1 then fileSize else rank * chunk + chunk)
  }

  /** How far the scanned range starts before the raw one. */
  function Lookback(rank: int, continuous: bool, maxPatternLength: int): int
  {
    if rank > 0 && continuous then maxPatternLength - 1 else 0
  }

  /** `[start_offset, end_offset)` as `main` computes it; `buffer_size` is its length. */
  function Plan(fileSize: int, size: int, rank: int, continuous: bool, maxPatternLength: int): (p: Range)
    requires ValidGroup(fileSize, size) && 0 <= rank < size
    ensures p.end == RawRange(fileSize, size, rank).end
    ensures p.start == RawRange(fileSize, size, rank).start - Lookback(rank, continuous, maxPatternLength)
  {
    var raw := RawRange(fileSize, size, rank);
    var overlap := if continuous then maxPatternLength - 1 else 0;
    Range(if rank > 0 && continuous then raw.start - overlap else raw.start, raw.end)
  }

  lemma ChunkBounds(fileSize: int, size: int, rank: int)
    requires ValidGroup(fileSize, size) && 0 <= rank < size
    ensures 0 <= ChunkSize(fileSize, size)
    ensures 0 <= rank * ChunkSize(fileSize, size)
    ensures rank * ChunkSize(fileSize, size) + ChunkSize(fileSize, size) <= fileSize
  {
    var chunk := ChunkSize(fileSize, size);
    assert size * chunk <= fileSize;
    assert (rank + 1) * chunk <= size * chunk by {
      assert rank + 1 <= size;
    }
  }

  /** A planned range never ends past the end of the file. */
  lemma PlanEndsInFile(fileSize: int, size: int, rank: int, continuous: bool, maxPatternLength: int)
    requires ValidGroup(fileSize, size) && 0 <= rank < size
    ensures Plan(fileSize, size, rank, continuous, maxPatternLength).end <= fileSize
  {
    ChunkBounds(fileSize, size, rank);
  }

  /** The raw ranges tile `[0, fileSize)`: rank 0 starts at 0, each range ends where
      the next begins, no range is reversed, and the last one ends at `fileSize`. */
  lemma RawRangesTile(fileSize: int, size: int)
    requires ValidGroup(fileSize, size)
    ensures RawRange(fileSize, size, 0).start == 0
    ensures RawRange(fileSize, size, size - 1).end == fileSize
    ensures forall r | 0 <= r < size - 1 ::
      RawRange(fileSize, size, r).end == RawRange(fileSize, size, r + 1).start
    ensures forall r | 0 <= r < size ::
      0 <= RawRange(fileSize, size, r).start <= RawRange(fileSize, size, r).end <= fileSize
  {
    var chunk := ChunkSize(fileSize, size);
    forall r | 0 <= r < size - 1
      ensures RawRange(fileSize, size, r).end == RawRange(fileSize, size, r + 1).start
    {
      assert r * chunk + chunk == (r + 1) * chunk;
    }
    forall r | 0 <= r < size
      ensures 0 <= RawRange(fileSize, size, r).start <= RawRange(fileSize, size, r).end <= fileSize
    {
      ChunkBounds(fileSize, size, r);
    }
  }

  /** The rank whose raw range holds byte `pos`. */
  function Owner(fileSize: int, size: int, pos: int): (r: int)
    requires ValidGroup(fileSize, size) && 0 <= pos < fileSize
    ensures 0 <= r < size
    ensures RawRange(fileSize, size, r).start <= pos < RawRange(fileSize, size, r).end
  {
    var chunk := ChunkSize(fileSize, size);
    if chunk == 0 then size - 1
    else
      var q := if pos / chunk < size - 1 then pos / chunk else size - 1;
      OwnerArithmetic(fileSize, size, pos, q);
      q
  }

  lemma OwnerArithmetic(fileSize: int, size: int, pos: int, q: int)
    requires ValidGroup(fileSize, size) && 0 <= pos < fileSize && ChunkSize(fileSize, size) > 0
    requires q == if pos / ChunkSize(fileSize, size) < size - 1 then pos / ChunkSize(fileSize, size) else size - 1
    ensures 0 <= q < size
    ensures RawRange(fileSize, size, q).start <= pos < RawRange(fileSize, size, q).end
  {
    var chunk := ChunkSize(fileSize, size);
    var d := pos / chunk;
    assert d * chunk <= pos < d * chunk + chunk;
    assert 0 <= d;
    MulMonotone(q, d, chunk);
  }

  lemma MulMonotone(a: int, b: int, c: int)
    requires a <= b && 0 <= c
    ensures a * c <= b * c
  {
  }

  /** No byte is claimed by two ranks: the owner is the only rank whose raw range holds it. */
  lemma OwnerUnique(fileSize: int, size: int, pos: int, r: int)
    requires ValidGroup(fileSize, size) && 0 <= pos < fileSize && 0 <= r < size
    requires RawRange(fileSize, size, r).start <= pos < RawRange(fileSize, size, r).end
    ensures r == Owner(fileSize, size, pos)
  {
    var o := Owner(fileSize, size, pos);
    RawRangesTile(fileSize, size);
    if r < o {
      RawEndsBelowLaterStarts(fileSize, size, r, o);
    } else if o < r {
      RawEndsBelowLaterStarts(fileSize, size, o, r);
    }
  }

  lemma {:induction false} RawEndsBelowLaterStarts(fileSize: int, size: int, a: int, b: int)
    requires ValidGroup(fileSize, size) && 0 <= a < b < size
    ensures RawRange(fileSize, size, a).end <= RawRange(fileSize, size, b).start
    decreases b - a
  {
    RawRangesTile(fileSize, size);
    if a + 1 < b {
      RawEndsBelowLaterStarts(fileSize, size, a + 1, b);
    }
  }

  /** The summed lengths of the raw ranges of ranks `0 .. n-1`. */
  function RawLengthSum(fileSize: int, size: int, n: int): int
    requires ValidGroup(fileSize, size) && 0 <= n <= size
  {
    if n == 0 then 0
    else RawLengthSum(fileSize, size, n - 1)
         + (RawRange(fileSize, size, n - 1).end - RawRange(fileSize, size, n - 1).start)
  }

  lemma {:induction false} RawLengthPrefix(fileSize: int, size: int, n: int)
    requires ValidGroup(fileSize, size) && 1 <= n <= size
    ensures RawLengthSum(fileSize, size, n) == RawRange(fileSize, size, n - 1).end
  {
    RawRangesTile(fileSize, size);
    if n > 1 {
      RawLengthPrefix(fileSize, size, n - 1);
    }
  }

  /** The raw lengths of all ranks add up to the file size. */
  lemma RawLengthsSumToFileSize(fileSize: int, size: int)
    requires ValidGroup(fileSize, size)
    ensures RawLengthSum(fileSize, size, size) == fileSize
  {
    RawLengthPrefix(fileSize, size, size);
    RawRangesTile(fileSize, size);
  }

  /** Every planned range of a continuous file starts at or after byte 0. */
  predicate StartsInFile(fileSize: int, size: int, maxPatternLength: int)
    requires ValidGroup(fileSize, size)
  {
    forall r | 0 <= r < size :: 0 <= Plan(fileSize, size, r, true, maxPatternLength).start
  }

  /** In continuous mode, with `max_pattern_length >= 1` and no start before byte 0, a
      window of length `1 <= L <= max_pattern_length` inside the file lies wholly in the
      scanned range of the rank that owns its last byte, and that range lies in the file. */
  lemma PlanCoversWindow(fileSize: int, size: int, maxPatternLength: int, p: int, L: int)
    requires ValidGroup(fileSize, size) && StartsInFile(fileSize, size, maxPatternLength)
    requires 1 <= L <= maxPatternLength && 0 <= p && p + L <= fileSize
    ensures var scan := Plan(fileSize, size, Owner(fileSize, size, p + L - 1), true, maxPatternLength);
      0 <= scan.start <= p && p + L <= scan.end <= fileSize
  {
    var r := Owner(fileSize, size, p + L - 1);
    RawRangesTile(fileSize, size);
    assert 0 <= Plan(fileSize, size, r, true, maxPatternLength).start;
  }
}
