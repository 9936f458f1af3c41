/** The brute-force scan `quick_search` and the `strncmp` it relies on. */
module LinearSearch {
  import opened Bytes

  /** `strncmp(a, b, n) == 0`: at most `n` bytes are compared, and the
      comparison ends early, with equality, at a NUL that both share. */
  function StrnEqual(a: seq<byte>, b: seq<byte>, n: nat): bool
    requires n <= |a| && n <= |b|
  {
    if n == 0 then true
    else if a[0] != b[0] then false
    else if a[0] == NUL then true
    else StrnEqual(a[1..], b[1..], n - 1)
  }

  /** When the pattern holds no NUL (its length came from `strlen`),
      `strncmp` over its length is byte-exact equality of the window. */
  lemma {:induction false} StrnEqualIsWindowEquality(a: seq<byte>, b: seq<byte>, n: nat)
    requires n <= |a| && n <= |b|
    requires NoNul(b)
    ensures StrnEqual(a, b, n) <==> a[..n] == b[..n]
  {
    if n > 0 {
      assert b[0] != NUL;
      StrnEqualIsWindowEquality(a[1..], b[1..], n - 1);
      if a[0] == b[0] {
        assert a[..n] == [a[0]] + a[1..][..n - 1];
        assert b[..n] == [b[0]] + b[1..][..n - 1];
      } else {
        assert a[..n][0] != b[..n][0];
      }
    }
  }

  /** The pattern occurs in the text at index `i` (the window lies inside the text). */
  predicate OccursAt(text: seq<byte>, pattern: seq<byte>, i: int)
  {
    0 <= i && i + |pattern| <= |text| && text[i..i + |pattern|] == pattern
  }

  /** The global positions reported for the candidate indices below `n`, in scan order. */
  function ReportsBelow(text: seq<byte>, pattern: seq<byte>, offset: int, n: nat): seq<int>
  {
    if n == 0 then []
    else ReportsBelow(text, pattern, offset, n - 1)
         + (if OccursAt(text, pattern, n - 1) then [offset + n - 1] else [])
  }

  /** Everything one scan of `text` for `pattern` reports, positions shifted by `offset`. */
  function Search(text: seq<byte>, pattern: seq<byte>, offset: int): seq<int>
  {
    if |pattern| <= |text| then ReportsBelow(text, pattern, offset, |text| - |pattern| + 1) else []
  }

  lemma {:induction false} ReportsBelowExact(text: seq<byte>, pattern: seq<byte>, offset: int, n: nat)
    ensures forall p :: p in ReportsBelow(text, pattern, offset, n) <==>
      offset <= p < offset + n && OccursAt(text, pattern, p - offset)
    ensures forall a, b | 0 <= a < b < |ReportsBelow(text, pattern, offset, n)| ::
      ReportsBelow(text, pattern, offset, n)[a] < ReportsBelow(text, pattern, offset, n)[b]
  {
    if n > 0 {
      ReportsBelowExact(text, pattern, offset, n - 1);
      var before := ReportsBelow(text, pattern, offset, n - 1);
      forall a | 0 <= a < |before| ensures before[a] < offset + n - 1 {
        assert before[a] in before;
      }
    }
  }

  /** A position is reported exactly when the pattern occurs there; a text
      shorter than the pattern yields no report at all. */
  lemma SearchExact(text: seq<byte>, pattern: seq<byte>, offset: int)
    ensures forall p :: p in Search(text, pattern, offset) <==> OccursAt(text, pattern, p - offset)
  {
    ReportsBelowExact(text, pattern, offset, if |pattern| <= |text| then |text| - |pattern| + 1 else 0);
  }

  lemma SearchExactAt(text: seq<byte>, pattern: seq<byte>, offset: int, p: int)
    ensures p in Search(text, pattern, offset) <==> OccursAt(text, pattern, p - offset)
  {
    SearchExact(text, pattern, offset);
  }

  /** Reports come out in strictly increasing order, so each at most once. */
  lemma SearchIncreasing(text: seq<byte>, pattern: seq<byte>, offset: int)
    ensures forall a, b | 0 <= a < b < |Search(text, pattern, offset)| ::
      Search(text, pattern, offset)[a] < Search(text, pattern, offset)[b]
  {
    ReportsBelowExact(text, pattern, offset, if |pattern| <= |text| then |text| - |pattern| + 1 else 0);
  }

  lemma {:induction false} EmptyPatternReportsBelow(text: seq<byte>, offset: int, n: nat)
    requires n <= |text| + 1
    ensures ReportsBelow(text, [], offset, n) == seq(n, k => offset + k)
  {
    if n > 0 {
      EmptyPatternReportsBelow(text, offset, n - 1);
      assert OccursAt(text, [], n - 1);
    }
  }

  /** An empty pattern is reported at every position from the offset up to
      the offset plus the text length, both included. */
  lemma EmptyPatternEverywhere(text: seq<byte>, offset: int)
    ensures Search(text, [], offset) == seq(|text| + 1, k => offset + k)
  {
    EmptyPatternReportsBelow(text, offset, |text| + 1);
  }

  /** `quick_search`: tries every index `i` from 0 to `textLength - |pattern|`
      with `strncmp` and reports `startOffset + i` for each hit. */
  method QuickSearch(text: array<byte>, textLength: int, pattern: seq<byte>, startOffset: int)
    returns (found: seq<int>)
    requires 0 <= textLength <= text.Length
    requires NoNul(pattern)
    ensures found == Search(text[..textLength], pattern, startOffset)
  {
    ghost var window := text[..textLength];
    found := [];
    var i := 0;
    while i <= textLength - |pattern|
      invariant 0 <= i && (i == 0 || i <= textLength - |pattern| + 1)
      invariant found == ReportsBelow(window, pattern, startOffset, i)
    {
      StrnEqualIsWindowEquality(text[i..textLength], pattern, |pattern|);
      assert text[i..textLength][..|pattern|] == window[i..i + |pattern|];
      if StrnEqual(text[i..textLength], pattern, |pattern|) {
        found := found + [startOffset + i];
      }
      i := i + 1;
    }
  }
}
