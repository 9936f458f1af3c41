/** One rank's pass of `main`: read its planned range, apply the segmented-mode tail
    write, and search every pattern of the catalogue in the buffer. */
module RankSearch {
  import opened Bytes
  import opened LinearSearch
  import opened Partition
  import opened SegmentedTail
  import opened Continuity
  import opened PatternLoader

  /** A range `[start, end)` lying inside a file of `fileSize` bytes. */
  predicate InFile(scan: Range, fileSize: int)
  {
    0 <= scan.start <= scan.end <= fileSize
  }

  /** A plan `main` can carry out without an `fseek` before the file or a negative
      `buffer_size`. */
  predicate ValidPlan(fileSize: int, size: int, rank: int, continuous: bool, maxPatternLength: int)
  {
    ValidGroup(fileSize, size) && 0 <= rank < size
    && 0 <= Plan(fileSize, size, rank, continuous, maxPatternLength).start
    && Plan(fileSize, size, rank, continuous, maxPatternLength).start
       <= Plan(fileSize, size, rank, continuous, maxPatternLength).end
  }

  lemma PlanInFile(fileSize: int, size: int, rank: int, continuous: bool, maxPatternLength: int)
    requires ValidPlan(fileSize, size, rank, continuous, maxPatternLength)
    ensures InFile(Plan(fileSize, size, rank, continuous, maxPatternLength), fileSize)
  {
    PlanEndsInFile(fileSize, size, rank, continuous, maxPatternLength);
  }

  /** `buffer` after the `fread` of the range and the terminator at `buffer[buffer_size]`. */
  function ReadBuffer(file: seq<byte>, scan: Range): (buf: seq<byte>)
    requires InFile(scan, |file|)
    ensures |buf| == scan.end - scan.start + 1 && buf[scan.end - scan.start] == NUL
    ensures buf[..scan.end - scan.start] == file[scan.start..scan.end]
  {
    file[scan.start..scan.end] + [NUL]
  }

  /** The `buffer_size` bytes `quick_search` scans: in segmented mode after the tail write. */
  function ScanText(file: seq<byte>, scan: Range, continuous: bool): seq<byte>
    requires InFile(scan, |file|)
  {
    var n := scan.end - scan.start;
    if continuous then ReadBuffer(file, scan)[..n] else TailWritten(ReadBuffer(file, scan), n)[..n]
  }

  /** The text rank `rank` scans. */
  function RankText(file: seq<byte>, size: int, rank: int, continuous: bool, maxPatternLength: int): seq<byte>
    requires ValidPlan(|file|, size, rank, continuous, maxPatternLength)
  {
    PlanInFile(|file|, size, rank, continuous, maxPatternLength);
    ScanText(file, Plan(|file|, size, rank, continuous, maxPatternLength), continuous)
  }

  /** Lines 132-153 of `main`: read the range into a buffer of `buffer_size + 1` bytes,
      apply the tail write in segmented mode, and run `quick_search` for every pattern;
      report `k` is what is printed for pattern `k`. */
  method SearchRange(file: seq<byte>, patterns: seq<seq<byte>>, scan: Range, continuous: bool)
    returns (reports: seq<seq<int>>)
    requires InFile(scan, |file|)
    requires forall k | 0 <= k < |patterns| :: NoNul(patterns[k])
    ensures |reports| == |patterns|
    ensures forall k | 0 <= k < |patterns| ::
      reports[k] == Search(ScanText(file, scan, continuous), patterns[k], scan.start)
  {
    var bufferSize := scan.end - scan.start;
    var chunk := file[scan.start..scan.end];
    var buffer := new byte[bufferSize + 1](i => if 0 <= i < |chunk| then chunk[i] else NUL);
    assert buffer[..] == ReadBuffer(file, scan);
    if !continuous {
      WriteTailNul(buffer, bufferSize);
    }
    ghost var text := ScanText(file, scan, continuous);
    assert buffer[..bufferSize] == text;
    reports := [];
    var i := 0;
    while i < |patterns|
      invariant 0 <= i <= |patterns| && |reports| == i
      invariant buffer[..bufferSize] == text
      invariant forall k | 0 <= k < i :: reports[k] == Search(text, patterns[k], scan.start)
    {
      var found := QuickSearch(buffer, bufferSize, patterns[i], scan.start);
      reports := reports + [found];
      i := i + 1;
    }
  }

  /** Lines 124-153 of `main` on one rank: plan the range, then search it. */
  method SearchRank(file: seq<byte>, patterns: seq<seq<byte>>, size: int, rank: int,
                    continuous: bool, maxPatternLength: int)
    returns (reports: seq<seq<int>>)
    requires ValidPlan(|file|, size, rank, continuous, maxPatternLength)
    requires forall k | 0 <= k < |patterns| :: NoNul(patterns[k])
    ensures |reports| == |patterns|
    ensures forall k | 0 <= k < |patterns| ::
      reports[k] == Search(RankText(file, size, rank, continuous, maxPatternLength), patterns[k],
                           Plan(|file|, size, rank, continuous, maxPatternLength).start)
  {
    var plan := Plan(|file|, size, rank, continuous, maxPatternLength);
    PlanInFile(|file|, size, rank, continuous, maxPatternLength);
    reports := SearchRange(file, patterns, plan, continuous);
  }

  /** `main` on one rank, from the catalogue file and the searched file: the catalogue is
      loaded, the searched file classified, and every pattern searched in the rank's range. */
  method RunRank(patternFile: seq<byte>, file: seq<byte>, size: int, rank: int)
    returns (reports: seq<seq<int>>)
    requires ValidPlan(|file|, size, rank, Continuous(file), MaxLength(Patterns(patternFile)))
    ensures |reports| == |Patterns(patternFile)|
    ensures forall k | 0 <= k < |reports| ::
      reports[k] == Search(RankText(file, size, rank, Continuous(file), MaxLength(Patterns(patternFile))),
                           Patterns(patternFile)[k],
                           Plan(|file|, size, rank, Continuous(file), MaxLength(Patterns(patternFile))).start)
  {
    var strings, count, maxPatternLength := LoadStrings(patternFile);
    var continuous := IsContinuousFile(file);
    PatternsWellFormed(patternFile);
    reports := SearchRank(file, strings[..count], size, rank, continuous, maxPatternLength);
  }

  /** A window inside `[s, e)` occurs in the file exactly when it occurs in the slice. */
  lemma OccursInSlice(file: seq<byte>, s: int, e: int, pattern: seq<byte>, p: int)
    requires 0 <= s <= p && p + |pattern| <= e <= |file|
    ensures OccursAt(file, pattern, p) <==> OccursAt(file[s..e], pattern, p - s)
  {
    var inner := file[s..e][p - s..p - s + |pattern|];
    var outer := file[p..p + |pattern|];
    forall k | 0 <= k < |pattern|
      ensures inner[k] == outer[k]
    {
      assert inner[k] == file[s..e][p - s + k] == file[p + k];
    }
    assert inner == outer;
  }

  /** Searching the bytes of a range finds exactly the whole-file occurrences whose window
      lies in the range. */
  lemma SliceSearchExact(file: seq<byte>, scan: Range, pattern: seq<byte>, p: int)
    requires InFile(scan, |file|)
    ensures p in Search(file[scan.start..scan.end], pattern, scan.start)
      <==> p in Search(file, pattern, 0) && scan.start <= p && p + |pattern| <= scan.end
  {
    SearchExactAt(file[scan.start..scan.end], pattern, scan.start, p);
    SearchExactAt(file, pattern, 0, p);
    if scan.start <= p && p + |pattern| <= scan.end {
      OccursInSlice(file, scan.start, scan.end, pattern, p);
    }
  }

  /** What a scan reports for a pattern, in either mode: exactly the whole-file occurrences
      whose window lies in the scanned range, less, in segmented mode, those whose window
      covers the byte the tail write set to NUL. */
  lemma ScanReportsExact(file: seq<byte>, scan: Range, continuous: bool, pattern: seq<byte>, p: int)
    requires InFile(scan, |file|) && NoNul(pattern)
    ensures var cut := CutIndex(ReadBuffer(file, scan), scan.end - scan.start);
      p in Search(ScanText(file, scan, continuous), pattern, scan.start)
      <==>
      && p in Search(file, pattern, 0)
      && scan.start <= p && p + |pattern| <= scan.end
      && (continuous || cut.None? || !Covers(p - scan.start, |pattern|, cut.value))
  {
    SliceSearchExact(file, scan, pattern, p);
    if !continuous {
      TailWriteSearch(ReadBuffer(file, scan), scan.end - scan.start, pattern, scan.start);
    }
  }

  /** Every rank's reports, in either mode, are occurrences in the whole file. */
  lemma RankReportsSound(file: seq<byte>, size: int, rank: int, continuous: bool,
                         maxPatternLength: int, pattern: seq<byte>, p: int)
    requires ValidPlan(|file|, size, rank, continuous, maxPatternLength) && NoNul(pattern)
    requires p in Search(RankText(file, size, rank, continuous, maxPatternLength), pattern,
                         Plan(|file|, size, rank, continuous, maxPatternLength).start)
    ensures p in Search(file, pattern, 0)
  {
    PlanInFile(|file|, size, rank, continuous, maxPatternLength);
    ScanReportsExact(file, Plan(|file|, size, rank, continuous, maxPatternLength), continuous, pattern, p);
  }

  /** The rank that finds an occurrence of length `L` at `p` in continuous mode: the owner of
      its last byte, or for an empty pattern the owner of `p` (the last rank at the end). */
  function Finder(fileSize: int, size: int, p: int, L: int): (r: int)
    requires ValidGroup(fileSize, size) && 0 <= p && 0 <= L && p + L <= fileSize
    ensures 0 <= r < size
  {
    if L >= 1 then Owner(fileSize, size, p + L - 1)
    else if p < fileSize then Owner(fileSize, size, p)
    else size - 1
  }

  lemma FinderScansWindow(fileSize: int, size: int, maxPatternLength: int, p: int, L: int)
    requires ValidGroup(fileSize, size) && StartsInFile(fileSize, size, maxPatternLength)
    requires 1 <= maxPatternLength && 0 <= L <= maxPatternLength && 0 <= p && p + L <= fileSize
    ensures var scan := Plan(fileSize, size, Finder(fileSize, size, p, L), true, maxPatternLength);
      ValidPlan(fileSize, size, Finder(fileSize, size, p, L), true, maxPatternLength)
      && scan.start <= p && p + L <= scan.end
  {
    var r := Finder(fileSize, size, p, L);
    RawRangesTile(fileSize, size);
    assert 0 <= Plan(fileSize, size, r, true, maxPatternLength).start;
    if L >= 1 {
      PlanCoversWindow(fileSize, size, maxPatternLength, p, L);
    }
  }

  /** In continuous mode, with `max_pattern_length >= 1` and no planned start before byte 0,
      ownership by the last byte of the window makes the ranks' reports partition the
      single-scan result: a window of a pattern no longer than `max_pattern_length` is an
      occurrence in the whole file exactly when the rank owning its last byte reports it. */
  lemma ContinuousOwnerReportsExactly(file: seq<byte>, size: int, maxPatternLength: int,
                                      pattern: seq<byte>, p: int)
    requires ValidGroup(|file|, size) && StartsInFile(|file|, size, maxPatternLength)
    requires 1 <= maxPatternLength && |pattern| <= maxPatternLength && NoNul(pattern)
    requires 0 <= p && p + |pattern| <= |file|
    ensures ValidPlan(|file|, size, Finder(|file|, size, p, |pattern|), true, maxPatternLength)
    ensures p in Search(file, pattern, 0)
      <==> p in Search(RankText(file, size, Finder(|file|, size, p, |pattern|), true, maxPatternLength), pattern,
                       Plan(|file|, size, Finder(|file|, size, p, |pattern|), true, maxPatternLength).start)
  {
    var r := Finder(|file|, size, p, |pattern|);
    FinderScansWindow(|file|, size, maxPatternLength, p, |pattern|);
    PlanInFile(|file|, size, r, true, maxPatternLength);
    ScanReportsExact(file, Plan(|file|, size, r, true, maxPatternLength), true, pattern, p);
  }

  /** In continuous mode, with `max_pattern_length >= 1` and no planned start before byte 0,
      every occurrence in the whole file of a pattern no longer than `max_pattern_length` is
      reported by some rank: the union of the ranks' reports contains the single-scan result. */
  lemma ContinuousUnionCoversWholeFile(file: seq<byte>, size: int, maxPatternLength: int,
                                       pattern: seq<byte>, p: int)
    requires ValidGroup(|file|, size) && StartsInFile(|file|, size, maxPatternLength)
    requires 1 <= maxPatternLength && |pattern| <= maxPatternLength && NoNul(pattern)
    requires p in Search(file, pattern, 0)
    ensures exists r | 0 <= r < size && ValidPlan(|file|, size, r, true, maxPatternLength) ::
      p in Search(RankText(file, size, r, true, maxPatternLength), pattern,
                  Plan(|file|, size, r, true, maxPatternLength).start)
  {
    SearchExactAt(file, pattern, 0, p);
    ContinuousOwnerReportsExactly(file, size, maxPatternLength, pattern, p);
  }

  /** Every rank's planned range satisfies the plan conditions in continuous mode once the
      starts are in the file and `max_pattern_length >= 1`. */
  lemma ContinuousPlansValid(fileSize: int, size: int, maxPatternLength: int, r: int)
    requires ValidGroup(fileSize, size) && StartsInFile(fileSize, size, maxPatternLength)
    requires 1 <= maxPatternLength && 0 <= r < size
    ensures ValidPlan(fileSize, size, r, true, maxPatternLength)
  {
    RawRangesTile(fileSize, size);
    assert 0 <= Plan(fileSize, size, r, true, maxPatternLength).start;
  }

  /** Two ranks over the nine bytes "abcabcabc" searching "cab" (`max_pattern_length` 3):
      the occurrence at 2 straddles the raw boundary at 4. Rank 0, whose raw range holds its
      first byte, never finds it; rank 1 finds it only because in continuous mode its scan
      starts two bytes early, and without that overlap neither rank does. */
  lemma OverlapFindsStraddlingOccurrence()
    ensures var file: seq<byte> := [97, 98, 99, 97, 98, 99, 97, 98, 99];
      var cab: seq<byte> := [99, 97, 98];
      && 2 in Search(file, cab, 0)
      && ValidPlan(9, 2, 1, true, 3) && 2 in Search(RankText(file, 2, 1, true, 3), cab, 2)
      && ValidPlan(9, 2, 0, true, 3) && 2 !in Search(RankText(file, 2, 0, true, 3), cab, 0)
      && ValidPlan(9, 2, 0, false, 3) && 2 !in Search(RankText(file, 2, 0, false, 3), cab, 0)
      && ValidPlan(9, 2, 1, false, 3) && 2 !in Search(RankText(file, 2, 1, false, 3), cab, 4)
  {
    var file: seq<byte> := [97, 98, 99, 97, 98, 99, 97, 98, 99];
    var cab: seq<byte> := [99, 97, 98];
    assert file[2..5] == cab;
    SearchExactAt(file, cab, 0, 2);
    assert Plan(9, 2, 1, true, 3) == Range(2, 9);
    assert Plan(9, 2, 0, true, 3) == Plan(9, 2, 0, false, 3) == Range(0, 4);
    assert Plan(9, 2, 1, false, 3) == Range(4, 9);
    ScanReportsExact(file, Range(2, 9), true, cab, 2);
    ScanReportsExact(file, Range(0, 4), true, cab, 2);
    ScanReportsExact(file, Range(0, 4), false, cab, 2);
    ScanReportsExact(file, Range(4, 9), false, cab, 2);
  }
}
