/** `load_strings`: the pattern catalogue read line by line with `fgets`. */
module PatternLoader {
  import opened Bytes

  /** Size of the `fgets` buffer; one call stores at most one byte fewer. */
  const MAX_STRING_LENGTH: nat := 1024
  const MAX_PIECE: nat := MAX_STRING_LENGTH - 1
  const INITIAL_CAPACITY: nat := 100

  /** A byte at which `strcspn(buffer, "\r\n")` stops: CR, LF or the string's own NUL. */
  predicate Stops(b: byte)
  {
    b == CR || b == LF || b == NUL
  }

  function FgetsFrom(file: seq<byte>, pos: nat, k: nat): (n: nat)
    requires pos + k < |file| && k < MAX_PIECE
    ensures k < n && pos + n <= |file| && n <= MAX_PIECE
    decreases |file| - k
  {
    if file[pos + k] == LF || pos + k + 1 == |file| || k + 1 == MAX_PIECE then k + 1
    else FgetsFrom(file, pos, k + 1)
  }

  /** How many bytes one successful `fgets(buffer, 1024, file)` at `pos` consumes. */
  function FgetsLength(file: seq<byte>, pos: nat): (n: nat)
    requires pos < |file|
    ensures 1 <= n && pos + n <= |file| && n <= MAX_PIECE
  {
    FgetsFrom(file, pos, 0)
  }

  lemma {:induction false} FgetsFromSpec(file: seq<byte>, pos: nat, k: nat)
    requires pos + k < |file| && k < MAX_PIECE
    requires forall j | pos <= j < pos + k :: file[j] != LF
    ensures var n := FgetsFrom(file, pos, k);
      && (forall j | pos <= j < pos + n - 1 :: file[j] != LF)
      && (file[pos + n - 1] == LF || pos + n == |file| || n == MAX_PIECE)
    decreases |file| - k
  {
    if !(file[pos + k] == LF || pos + k + 1 == |file| || k + 1 == MAX_PIECE) {
      FgetsFromSpec(file, pos, k + 1);
    }
  }

  /** One `fgets` call reads up to and including the next `'\n'`, but never more than
      1023 bytes and never past the end of the file. */
  lemma FgetsLengthSpec(file: seq<byte>, pos: nat)
    requires pos < |file|
    ensures var n := FgetsLength(file, pos);
      && (forall j | pos <= j < pos + n - 1 :: file[j] != LF)
      && (file[pos + n - 1] == LF || pos + n == |file| || n == MAX_PIECE)
  {
    FgetsFromSpec(file, pos, 0);
  }

  function CutFrom(piece: seq<byte>, k: nat): (c: nat)
    requires k <= |piece|
    ensures k <= c <= |piece|
    decreases |piece| - k
  {
    if k == |piece| || Stops(piece[k]) then k else CutFrom(piece, k + 1)
  }

  /** `strcspn(buffer, "\r\n")` over a buffer terminated right after `piece`. */
  function CutLength(piece: seq<byte>): (c: nat)
    ensures c <= |piece|
  {
    CutFrom(piece, 0)
  }

  lemma {:induction false} CutFromSpec(piece: seq<byte>, k: nat)
    requires k <= |piece|
    requires forall j | 0 <= j < k :: !Stops(piece[j])
    ensures var c := CutFrom(piece, k);
      && (forall j | 0 <= j < c :: !Stops(piece[j]))
      && (c < |piece| ==> Stops(piece[c]))
    decreases |piece| - k
  {
    if !(k == |piece| || Stops(piece[k])) {
      CutFromSpec(piece, k + 1);
    }
  }

  /** The cut falls on the first CR, LF or NUL of the piece, or at its end. */
  lemma CutLengthSpec(piece: seq<byte>)
    ensures var c := CutLength(piece);
      && (forall j | 0 <= j < c :: !Stops(piece[j]))
      && (c < |piece| ==> Stops(piece[c]))
  {
    CutFromSpec(piece, 0);
  }

  /** The string `strdup` copies once the cut byte is zeroed. */
  function Clean(piece: seq<byte>): seq<byte>
  {
    piece[..CutLength(piece)]
  }

  /** The patterns stored by the `fgets` calls made from offset `pos` on. */
  function PatternsFrom(file: seq<byte>, pos: nat): seq<seq<byte>>
    decreases |file| - pos
  {
    if pos >= |file| then []
    else
      var n := FgetsLength(file, pos);
      [Clean(file[pos..pos + n])] + PatternsFrom(file, pos + n)
  }

  /** The patterns `load_strings` stores for a file, one per successful `fgets` call. */
  function Patterns(file: seq<byte>): seq<seq<byte>>
  {
    PatternsFrom(file, 0)
  }

  lemma {:induction false} PatternsFromWellFormed(file: seq<byte>, pos: nat)
    ensures forall i | 0 <= i < |PatternsFrom(file, pos)| :: |PatternsFrom(file, pos)[i]| <= MAX_PIECE
    ensures forall i, j | 0 <= i < |PatternsFrom(file, pos)| && 0 <= j < |PatternsFrom(file, pos)[i]| ::
      !Stops(PatternsFrom(file, pos)[i][j])
    decreases |file| - pos
  {
    if pos < |file| {
      var n := FgetsLength(file, pos);
      PatternsFromWellFormed(file, pos + n);
      CutLengthSpec(file[pos..pos + n]);
      var ps := PatternsFrom(file, pos);
      assert ps == [Clean(file[pos..pos + n])] + PatternsFrom(file, pos + n);
      forall i | 0 <= i < |ps|
        ensures |ps[i]| <= MAX_PIECE && forall j | 0 <= j < |ps[i]| :: !Stops(ps[i][j])
      {
        if i > 0 {
          assert ps[i] == PatternsFrom(file, pos + n)[i - 1];
        }
      }
    }
  }

  /** Every stored pattern has at most 1023 bytes and holds no CR, LF or NUL; in
      particular it is a C string, whose length `strlen` gives. */
  lemma PatternsWellFormed(file: seq<byte>)
    ensures forall i | 0 <= i < |Patterns(file)| :: |Patterns(file)[i]| <= MAX_PIECE
    ensures forall i, j | 0 <= i < |Patterns(file)| && 0 <= j < |Patterns(file)[i]| ::
      !Stops(Patterns(file)[i][j])
    ensures forall i | 0 <= i < |Patterns(file)| :: NoNul(Patterns(file)[i])
  {
    PatternsFromWellFormed(file, 0);
  }

  /** `max_pattern_length` for a list of patterns, kept as the loop keeps it. */
  function MaxLength(ps: seq<seq<byte>>): nat
  {
    if ps == [] then 0
    else
      var m := MaxLength(ps[..|ps| - 1]);
      var last := |ps[|ps| - 1]|;
      if last > m then last else m
  }

  /** It is the greatest pattern length, and 0 when there is no pattern. */
  lemma {:induction false} MaxLengthIsMaximum(ps: seq<seq<byte>>)
    ensures forall i | 0 <= i < |ps| :: |ps[i]| <= MaxLength(ps)
    ensures ps == [] ==> MaxLength(ps) == 0
    ensures ps != [] ==> exists i | 0 <= i < |ps| :: |ps[i]| == MaxLength(ps)
  {
    if ps != [] {
      var init := ps[..|ps| - 1];
      MaxLengthIsMaximum(init);
      assert forall i | 0 <= i < |ps| - 1 :: ps[i] == init[i];
      if init != [] && MaxLength(ps) == MaxLength(init) {
        var i :| 0 <= i < |init| && |init[i]| == MaxLength(init);
        assert ps[i] == init[i];
      }
    }
  }

  lemma MaxLengthAppend(ps: seq<seq<byte>>, p: seq<byte>)
    ensures MaxLength(ps + [p]) == if |p| > MaxLength(ps) then |p| else MaxLength(ps)
  {
    assert (ps + [p])[..|ps|] == ps;
  }

  /** The capacity of the catalogue array after `k` doublings of the initial 100. */
  function Doubled(k: nat): nat
  {
    if k == 0 then INITIAL_CAPACITY else 2 * Doubled(k - 1)
  }

  /** What the loop of `load_strings` knows once it has read the bytes before `pos`
      and stored the patterns `stored`. */
  predicate Loaded(file: seq<byte>, pos: nat, stored: seq<seq<byte>>, maxPatternLength: nat)
  {
    pos <= |file| && stored + PatternsFrom(file, pos) == Patterns(file)
    && maxPatternLength == MaxLength(stored)
  }

  /** One more `fgets` call moves one pattern from what is left to read to what is stored. */
  lemma LoadedStep(file: seq<byte>, pos: nat, stored: seq<seq<byte>>, maxPatternLength: nat,
                   n: nat, pattern: seq<byte>)
    requires pos < |file| && Loaded(file, pos, stored, maxPatternLength)
    requires n == FgetsLength(file, pos)
    requires pattern == file[pos..pos + n][..CutLength(file[pos..pos + n])]
    ensures Loaded(file, pos + n, stored + [pattern],
                   if |pattern| > maxPatternLength then |pattern| else maxPatternLength)
  {
    var rest := PatternsFrom(file, pos + n);
    assert PatternsFrom(file, pos) == [pattern] + rest;
    assert (stored + [pattern]) + rest == stored + ([pattern] + rest);
    MaxLengthAppend(stored, pattern);
  }

  /** `realloc` of the catalogue array to a larger capacity: the stored entries are kept. */
  method Realloc(strings: array<seq<byte>>, capacity: nat) returns (grown: array<seq<byte>>)
    requires strings.Length <= capacity
    ensures fresh(grown) && grown.Length == capacity
    ensures grown[..strings.Length] == strings[..]
  {
    var kept := strings[..];
    grown := new seq<byte>[capacity](i => if 0 <= i < |kept| then kept[i] else []);
  }

  /** Lines 23-28 of `load_strings`: double `capacity` and `realloc` when the array is
      full, then store `pattern` at index `count`. */
  method Store(strings: array<seq<byte>>, count: nat, pattern: seq<byte>)
    returns (grown: array<seq<byte>>)
    requires 0 < strings.Length && count <= strings.Length
    modifies strings
    ensures grown == strings || fresh(grown)
    ensures grown.Length == if count < strings.Length then strings.Length else 2 * strings.Length
    ensures count < grown.Length && grown[..count + 1] == old(strings[..count]) + [pattern]
  {
    grown := strings;
    if count >= strings.Length {
      grown := Realloc(strings, 2 * strings.Length);
    }
    ghost var kept := grown[..count];
    assert kept == old(strings[..count]);
    grown[count] := pattern;
    assert grown[..count + 1] == kept + [pattern] by {
      assert grown[..count + 1] == grown[..count] + [grown[count]];
    }
  }

  /** `load_strings` over the file's bytes: returns the array, `*count` and
      `*max_pattern_length`; the array's length is the final `capacity`. */
  method LoadStrings(file: seq<byte>) returns (strings: array<seq<byte>>, count: nat, maxPatternLength: nat)
    ensures count <= strings.Length
    ensures strings[..count] == Patterns(file)
    ensures maxPatternLength == MaxLength(strings[..count])
    ensures exists k: nat :: strings.Length == Doubled(k)
    ensures strings.Length == INITIAL_CAPACITY || strings.Length < 2 * count
  {
    strings := new seq<byte>[INITIAL_CAPACITY];
    count, maxPatternLength := 0, 0;
    var pos := 0;
    ghost var doublings: nat := 0;
    ghost var stored: seq<seq<byte>> := [];
    while pos < |file|
      invariant fresh(strings) && 0 < strings.Length && count <= strings.Length
      invariant strings.Length == Doubled(doublings)
      invariant strings.Length == INITIAL_CAPACITY || strings.Length < 2 * count
      invariant strings[..count] == stored
      invariant Loaded(file, pos, stored, maxPatternLength)
      decreases |file| - pos
    {
      var n := FgetsLength(file, pos);
      var buffer := file[pos..pos + n];
      var len := CutLength(buffer);
      LoadedStep(file, pos, stored, maxPatternLength, n, buffer[..len]);
      if count >= strings.Length {
        doublings := doublings + 1;
      }
      strings := Store(strings, count, buffer[..len]);
      stored := stored + [buffer[..len]];
      if len > maxPatternLength {
        maxPatternLength := len;
      }
      count := count + 1;
      pos := pos + n;
    }
  }

  /** The bytes of a file whose lines are `lines`, each ended by `'\n'`. */
  function JoinLines(lines: seq<seq<byte>>): seq<byte>
  {
    if lines == [] then [] else lines[0] + [LF] + JoinLines(lines[1..])
  }

  /** A line that one `fgets` call reads whole and `strcspn` keeps whole. */
  predicate PlainLine(line: seq<byte>)
  {
    |line| < MAX_PIECE && forall j | 0 <= j < |line| :: !Stops(line[j])
  }

  /** A short line ended by `'\n'` is read by one `fgets` call and stored whole. */
  lemma LineRead(file: seq<byte>, pos: nat, line: seq<byte>)
    requires pos + |line| < |file| && file[pos..pos + |line| + 1] == line + [LF]
    requires PlainLine(line)
    ensures FgetsLength(file, pos) == |line| + 1
    ensures Clean(file[pos..pos + |line| + 1]) == line
  {
    var m := |line|;
    assert forall j | 0 <= j < m :: file[pos + j] == (line + [LF])[j] == line[j];
    assert file[pos + m] == (line + [LF])[m] == LF;
    FgetsLengthSpec(file, pos);
    CutLengthSpec(line + [LF]);
  }

  lemma SuffixSplit(file: seq<byte>, pos: nat, front: seq<byte>, back: seq<byte>)
    requires pos <= |file| && file[pos..] == front + back
    ensures pos + |front| <= |file|
    ensures file[pos..pos + |front|] == front && file[pos + |front|..] == back
  {
    assert file[pos..pos + |front|] == (front + back)[..|front|];
    assert file[pos + |front|..] == (front + back)[|front|..];
  }

  /** Reading the first of `lines` stores it whole and leaves the file at the next line. */
  lemma FirstLineRead(file: seq<byte>, pos: nat, lines: seq<seq<byte>>)
    requires pos <= |file| && file[pos..] == JoinLines(lines)
    requires lines != [] && PlainLine(lines[0])
    ensures pos + |lines[0]| + 1 <= |file|
    ensures file[pos + |lines[0]| + 1..] == JoinLines(lines[1..])
    ensures PatternsFrom(file, pos) == [lines[0]] + PatternsFrom(file, pos + |lines[0]| + 1)
  {
    var line := lines[0];
    SuffixSplit(file, pos, line + [LF], JoinLines(lines[1..]));
    LineRead(file, pos, line);
  }

  lemma {:induction false} LinesRoundTripFrom(file: seq<byte>, pos: nat, lines: seq<seq<byte>>)
    requires pos <= |file| && file[pos..] == JoinLines(lines)
    requires forall i | 0 <= i < |lines| :: PlainLine(lines[i])
    ensures PatternsFrom(file, pos) == lines
    decreases lines
  {
    if lines != [] {
      FirstLineRead(file, pos, lines);
      LinesRoundTripFrom(file, pos + |lines[0]| + 1, lines[1..]);
      assert lines == [lines[0]] + lines[1..];
    } else {
      assert |file| - pos == |file[pos..]| == 0;
    }
  }

  /** Lines of at most 1022 bytes holding no CR, LF or NUL are read back exactly,
      one pattern per line. */
  lemma LinesRoundTrip(lines: seq<seq<byte>>)
    requires forall i | 0 <= i < |lines| :: PlainLine(lines[i])
    ensures Patterns(JoinLines(lines)) == lines
  {
    LinesRoundTripFrom(JoinLines(lines), 0, lines);
  }

  /** A line longer than 1023 bytes is split, not truncated: when the 1023 bytes from
      `pos` hold no `'\n'`, they form one pattern and reading resumes right after them. */
  lemma LongLineSplits(file: seq<byte>, pos: nat)
    requires pos + MAX_PIECE < |file|
    requires forall j | pos <= j < pos + MAX_PIECE :: file[j] != LF
    ensures PatternsFrom(file, pos)
      == [Clean(file[pos..pos + MAX_PIECE])] + PatternsFrom(file, pos + MAX_PIECE)
  {
    FgetsLengthSpec(file, pos);
  }

  /** A line of exactly 1023 bytes ends one `fgets` call short of its `'\n'`, so the
      newline alone yields a further, empty pattern. */
  lemma BoundaryLineAddsEmptyPattern(line: seq<byte>, rest: seq<byte>)
    requires |line| == MAX_PIECE
    requires forall j | 0 <= j < |line| :: !Stops(line[j])
    ensures Patterns(line + [LF] + rest) == [line, []] + PatternsFrom(line + [LF] + rest, MAX_PIECE + 1)
  {
    var file := line + [LF] + rest;
    assert forall j | 0 <= j < MAX_PIECE :: file[j] == line[j];
    LongLineSplits(file, 0);
    assert file[0..MAX_PIECE] == line;
    CutLengthSpec(line);
    assert Clean(line) == line;
    assert file[MAX_PIECE] == LF;
    assert FgetsLength(file, MAX_PIECE) == 1;
    assert Clean(file[MAX_PIECE..MAX_PIECE + 1]) == [];
    assert PatternsFrom(file, MAX_PIECE) == [[]] + PatternsFrom(file, MAX_PIECE + 1);
  }
}
