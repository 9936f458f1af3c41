# Parallel text search: a Dafny model

This project models the sequential core of `open_mpi_search.c`. That program searches a large
text file for every pattern of a catalogue. The work is split among a group of ranks: each
rank reads one byte range of the file and prints the global position of every match it finds.

The model covers five pieces, one module each:

- **`PatternLoader`** models `load_strings`. The catalogue file is a byte sequence, and
  `fgets` with a 1024-byte buffer reads it in pieces of at most 1023 bytes, each ending at
  `'\n'` or at the end of the file. `strcspn(buffer, "\r\n")` cuts each piece at its first
  CR or LF, or at a NUL it contains. The pieces are stored in an array that starts at
  capacity 100 and doubles through `realloc` when full. `*count` and `*max_pattern_length`
  are kept as the loop goes.
- **`Continuity`** models `is_continuous_file`, a scan that stops at the first space or newline.
- **`LinearSearch`** models `quick_search` and the `strncmp` it relies on. Each `printf` is
  modelled as one global position appended to the result sequence.
- **`Partition`** models the integer arithmetic of `main` that gives each rank its half-open
  range `[start_offset, end_offset)`. In continuous mode every rank after rank 0 extends its
  start backward by `max_pattern_length - 1` bytes, the look-back.
- **`SegmentedTail`** models the backward loop of `main` that writes a NUL after the last
  `'\n'` of a segmented-mode buffer. The loop works in place on an array.

`RankSearch` puts these together as one rank's pass through `main`. It proves what each rank
reports, relative to a single scan of the whole file.

Bytes are modelled as unsigned values 0..255 (`Bytes.byte`), and every file as a sequence of
bytes.

The code differs from the usual description of the program in two places. The model follows
the code in both:

- **Long catalogue lines are split, not truncated.** `fgets` returns at most 1023 bytes per
  call, and the next call continues on the same line. A line of 2000 bytes therefore yields
  two patterns. A line of exactly 1023 bytes is followed by an extra, empty pattern: the
  newline is read alone by the next call.
- **Segmented mode does not drop the trailing partial line.** The loop at lines 139-146
  overwrites one byte, the one after the last `'\n'`, with NUL. `quick_search` is still called
  with the full `buffer_size`, and `strncmp` is bounded by the pattern length rather than by
  the NUL. So the only matches lost are those whose window covers that one byte. Text after
  it is still searched.

The continuous-mode correctness property is also often stated with each match owned by the
rank whose raw range holds the match's first byte. That version does not hold: a match that
straddles a boundary is found only by the rank on the right, whose raw range does not hold its
first byte. `RankSearch.OverlapFindsStraddlingOccurrence` shows this on "abcabcabc".
`RankSearch.ContinuousOwnerReportsExactly` proves the version that does hold, where a match is
owned by the rank whose raw range holds its last byte.

## Model

| member | source | states |
|---|---|---|
| PatternLoader.FgetsLength | open_mpi_search.c:22 | one `fgets` call consumes at least one and at most 1023 bytes, and never reads past the end of the file |
| PatternLoader.FgetsLengthSpec | open_mpi_search.c:22 | one `fgets` call ends just after the first `'\n'`, at the end of the file, or after 1023 bytes, whichever comes first; the bytes before its last one hold no `'\n'` |
| PatternLoader.CutLengthSpec | open_mpi_search.c:27 | the cut falls on the first CR, LF or NUL of the piece, or at its end when it holds none |
| PatternLoader.PatternsWellFormed | open_mpi_search.c:22-28 | every stored pattern has at most 1023 bytes and holds no CR, LF or NUL, so `strlen` gives its length |
| PatternLoader.MaxLengthIsMaximum | open_mpi_search.c:29-32 | `max_pattern_length` is at least every stored length and equal to one of them, and it is 0 when nothing is stored |
| PatternLoader.MaxLengthAppend | open_mpi_search.c:29-32 | storing one more pattern updates the running maximum exactly as the `if` at lines 30-32 does |
| PatternLoader.LoadedStep | open_mpi_search.c:22-33 | one iteration moves exactly one pattern from the rest of the file to the stored list and keeps the running maximum |
| PatternLoader.Realloc | open_mpi_search.c:25 | the grown array has the new capacity and keeps every stored entry |
| PatternLoader.Store | open_mpi_search.c:23-28 | when `count >= capacity` the capacity doubles; the entries before `count` are kept and the new pattern lands at index `count` |
| PatternLoader.LoadStrings | open_mpi_search.c:9-38 | the stored strings are exactly the catalogue's patterns, in file order; `max_pattern_length` is their maximum length; `count <= capacity`; the capacity is 100 doubled some number of times, and more than 100 only when more than half of it is used |
| PatternLoader.LineRead | open_mpi_search.c:22-27 | a line shorter than 1023 bytes that holds no CR, LF or NUL is read by one `fgets` call and stored whole |
| PatternLoader.FirstLineRead | open_mpi_search.c:22-28 | reading the first line of a file made of such lines stores exactly that line and resumes at the next one |
| PatternLoader.LinesRoundTrip | open_mpi_search.c:22-33 | a catalogue of newline-terminated lines, each shorter than 1023 bytes and free of CR, LF and NUL, is read back as exactly those lines |
| PatternLoader.LongLineSplits | open_mpi_search.c:22 | when 1023 bytes hold no `'\n'`, they form one pattern and the next pattern starts right after them: a long line is split, not truncated |
| PatternLoader.BoundaryLineAddsEmptyPattern | open_mpi_search.c:22-28 | a line of exactly 1023 bytes is stored whole and is followed by an extra, empty pattern |
| Continuity.IsContinuousFile | open_mpi_search.c:40-58 | returns true exactly when no byte of the file is a space or a `'\n'`; tab and CR do not count |
| Continuity.ContinuousSplit | open_mpi_search.c:47-54 | continuity belongs to the whole file: the file is continuous exactly when both pieces of any split of it are |
| LinearSearch.StrnEqualIsWindowEquality | open_mpi_search.c:62 | for a NUL-free pattern, `strncmp` over the pattern's length returns 0 exactly when the window equals the pattern byte for byte |
| LinearSearch.SearchExact | open_mpi_search.c:60-66 | a global position `start_offset + i` is reported exactly when the pattern occurs at index `i` of the text; a text shorter than the pattern reports nothing |
| LinearSearch.SearchIncreasing | open_mpi_search.c:61 | reports come out in strictly increasing order, so each position is reported once |
| LinearSearch.EmptyPatternEverywhere | open_mpi_search.c:61-62 | an empty pattern is reported at every position from `start_offset` through `start_offset + text_length` |
| LinearSearch.QuickSearch | open_mpi_search.c:60-67 | the loop's reports are the scan's specification, applied to the first `text_length` bytes |
| Partition.Plan | open_mpi_search.c:124-130 | `end_offset` is the raw end; `start_offset` is the raw start less `max_pattern_length - 1` for a rank after rank 0 in continuous mode, and the raw start otherwise |
| Partition.ChunkBounds | open_mpi_search.c:124-127 | each rank's raw start and `start + chunk_size` lie within the file |
| Partition.PlanEndsInFile | open_mpi_search.c:127 | no planned range ends past the end of the file |
| Partition.RawRangesTile | open_mpi_search.c:124-127 | the raw ranges start at 0, are consecutive, end at `file_size`, and none is reversed |
| Partition.Owner | open_mpi_search.c:124-127 | every byte of the file lies in the raw range of some rank |
| Partition.OwnerUnique | open_mpi_search.c:124-127 | no byte lies in the raw ranges of two ranks |
| Partition.RawEndsBelowLaterStarts | open_mpi_search.c:124-127 | a rank's raw range ends no later than any later rank's raw range starts |
| Partition.RawLengthPrefix | open_mpi_search.c:124-127 | the raw lengths of the first `n` ranks add up to the raw end of rank `n - 1` |
| Partition.RawLengthsSumToFileSize | open_mpi_search.c:124-127 | the raw lengths of all ranks add up to `file_size` |
| Partition.PlanCoversWindow | open_mpi_search.c:124-130 | in continuous mode, with no start before byte 0, any window of length 1..`max_pattern_length` lies inside the scanned range of the rank whose raw range holds its last byte |
| SegmentedTail.LastNewline | open_mpi_search.c:140-141 | finds the last `'\n'` among the first `buffer_size` bytes, or reports that there is none |
| SegmentedTail.WriteTailNul | open_mpi_search.c:139-146 | the buffer afterwards is the old buffer with NUL written at the index after the last `'\n'`, and unchanged when there is no `'\n'` |
| SegmentedTail.TailWriteChangesOneByte | open_mpi_search.c:135-146 | at most one byte changes, and it becomes NUL; with no newline nothing changes; when the newline is the last byte, the written byte is the terminator, which is already NUL |
| SegmentedTail.TailWriteLosesOnlyCoveringWindows | open_mpi_search.c:139-152 | after the write, a NUL-free pattern still occurs at an index of the full `buffer_size` bytes exactly when it did before and its window does not cover the written byte |
| SegmentedTail.TailWriteSearch | open_mpi_search.c:139-152 | the same, as reported positions: the scan loses exactly the reports whose window covers the written byte |
| RankSearch.PlanInFile | open_mpi_search.c:124-130 | a plan with a non-negative start and a non-negative `buffer_size` lies inside the file |
| RankSearch.ReadBuffer | open_mpi_search.c:132-135 | the buffer holds the range's bytes followed by a NUL at index `buffer_size` |
| RankSearch.SearchRange | open_mpi_search.c:132-153 | report `k` is the scan of the rank's text for pattern `k`; the text is the range's bytes, after the tail write in segmented mode |
| RankSearch.SearchRank | open_mpi_search.c:124-153 | the same for the range planned from `file_size`, `size`, `rank`, `continuous` and `max_pattern_length` |
| RankSearch.RunRank | open_mpi_search.c:89-153 | one rank's run: report `k` is the scan of its text for pattern `k` of the catalogue; the flag and the maximum length are those of the two files |
| RankSearch.OccursInSlice | open_mpi_search.c:133-134 | a window inside the read range occurs in the file exactly when it occurs in the buffer |
| RankSearch.SliceSearchExact | open_mpi_search.c:132-152 | scanning a range's bytes reports exactly the whole-file occurrences whose window lies inside the range |
| RankSearch.ScanReportsExact | open_mpi_search.c:124-153 | in either mode a rank reports exactly the whole-file occurrences whose window lies inside its scanned range; in segmented mode, those whose window covers the written NUL are left out |
| RankSearch.RankReportsSound | open_mpi_search.c:124-153 | every position a rank reports, in either mode, is an occurrence in the whole file |
| RankSearch.Finder | open_mpi_search.c:124-127 | names a rank: the owner of a window's last byte, or of its first byte for an empty pattern, or the last rank at the end of the file |
| RankSearch.FinderScansWindow | open_mpi_search.c:124-130 | in continuous mode, with `max_pattern_length >= 1` and no start before byte 0, the finder's plan is valid and its scanned range holds the window |
| RankSearch.ContinuousOwnerReportsExactly | open_mpi_search.c:124-153 | in continuous mode, a window of a pattern no longer than `max_pattern_length` is an occurrence in the whole file exactly when the rank owning its last byte reports it |
| RankSearch.ContinuousUnionCoversWholeFile | open_mpi_search.c:124-153 | in continuous mode the union of all ranks' reports contains every result of a single scan of the whole file |
| RankSearch.ContinuousPlansValid | open_mpi_search.c:124-130 | in continuous mode, with `max_pattern_length >= 1` and no start before byte 0, every rank's plan has a non-negative `buffer_size` |
| RankSearch.OverlapFindsStraddlingOccurrence | open_mpi_search.c:124-153 | on "abcabcabc" with two ranks, "cab" at 2 is found by rank 1 through its look-back and by no rank without it; rank 0, which holds its first byte, never finds it |

## Left out

- The MPI calls (`MPI_Init`, `MPI_Comm_rank`, `MPI_Comm_size`, `MPI_Bcast`, `MPI_Barrier`, `MPI_Abort`, `MPI_Finalize`) are left out. They are runtime plumbing and concurrency. The broadcast of the catalogue and of the flag is modelled as passing the same values to every rank (`RankSearch.RunRank`).
- The catalogue broadcast sends `MAX_STRING_LENGTH` bytes from each `strdup` copy (line 105). That can read past the copy's end. This is foreign memory behaviour and is not modelled.
- File I/O (`fopen`, `fseek`, `ftell`, `fread`, `fgetc`, `fclose`) is left out. Every file is a byte sequence. A file that cannot be opened aborts the run and is not modelled. A failing `fseek` to a negative offset is excluded by the precondition `RankSearch.ValidPlan`.
- `fgets` failing with a read error is not modelled; the model reads until the end of the file.
- Continuity.IsContinuousFile assumes no byte compares equal to `EOF`. The byte is stored in a `char ch` (lines 48-49). Where `char` is signed, a 0xFF byte ends the scan early; where it is unsigned, the loop never ends. Both depend on the platform.
- `printf` formatting, the rank printed with each match and the `MPI_Wtime` timing (lines 64, 87, 165-168) are left out. Each match is a global position in the result sequence.
- The argument-count check (lines 76-82) is left out.
- Memory release (`free`) and allocation failure are left out.
- Integer widths are not modelled (`int` capacity, `long` offsets). The model's integers are unbounded, and catalogues or files large enough to overflow are out of scope.
- RankSearch.ContinuousUnionCoversWholeFile requires `max_pattern_length >= 1` and no planned start before byte 0 (`Partition.StartsInFile`). With `max_pattern_length == 0` the overlap is -1 and the start moves one byte forward. A start below 0 makes `fseek` fail. Both cases are excluded rather than modelled.
- Partition.Plan takes its inputs as unbounded integers. Plans whose `start_offset` is negative or whose `buffer_size` is negative are not carried out by the model; `RankSearch.ValidPlan` excludes them.
- A grid or 8-direction search mode does not appear in `open_mpi_search.c`, so there is nothing of it to model.
