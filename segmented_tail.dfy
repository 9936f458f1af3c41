/** The segmented-mode tail handling of `main`: one NUL written after the last newline. */
module SegmentedTail {
  import opened Bytes
  import opened LinearSearch

  /** The index of the last `'\n'` among the first `n` bytes, if there is one. */
  function LastNewline(s: seq<byte>, n: nat): (r: Option<nat>)
    requires n <= |s|
    ensures r.Some? ==> r.value < n && s[r.value] == LF
    ensures r.Some? ==> forall k | r.value < k < n :: s[k] != LF
    ensures r.None? <==> forall k | 0 <= k < n :: s[k] != LF
  {
    if n == 0 then None
    else if s[n - 1] == LF then Some(n - 1)
    else LastNewline(s, n - 1)
  }

  /** The buffer of `n` bytes plus its terminator after the tail write. */
  function TailWritten(s: seq<byte>, n: nat): seq<byte>
    requires n < |s|
  {
    match LastNewline(s, n)
    case None => s
    case Some(i) => s[i + 1 := NUL]
  }

  /** The one index the tail write sets to NUL, if any. */
  function CutIndex(s: seq<byte>, n: nat): Option<nat>
    requires n < |s|
  {
    match LastNewline(s, n)
    case None => None
    case Some(i) => Some(i + 1)
  }

  /** The loop at the tail of a segmented-mode buffer: scanning backward from the last of
      the `bufferSize` bytes, the first `'\n'` met has the byte after it set to NUL. */
  method WriteTailNul(buffer: array<byte>, bufferSize: int)
    requires 0 <= bufferSize && buffer.Length == bufferSize + 1
    modifies buffer
    ensures buffer[..] == TailWritten(old(buffer[..]), bufferSize)
  {
    var i := bufferSize - 1;
    while i >= 0
      invariant -1 <= i < bufferSize
      invariant buffer[..] == old(buffer[..])
      invariant forall k | i < k < bufferSize :: buffer[k] != LF
    {
      if buffer[i] == LF {
        buffer[i + 1] := NUL;
        break;
      }
      i := i - 1;
    }
  }

  /** Only one byte can change: the one after the last newline, which becomes NUL; with no
      newline nothing changes, and when the newline is the last byte the written byte is
      the terminator, already NUL. */
  lemma TailWriteChangesOneByte(s: seq<byte>, n: nat)
    requires n < |s| && s[n] == NUL
    ensures |TailWritten(s, n)| == |s|
    ensures CutIndex(s, n).None? ==> TailWritten(s, n) == s
    ensures CutIndex(s, n).Some? ==>
      && CutIndex(s, n).value <= n
      && TailWritten(s, n)[CutIndex(s, n).value] == NUL
      && forall k | 0 <= k < |s| && k != CutIndex(s, n).value :: TailWritten(s, n)[k] == s[k]
    ensures CutIndex(s, n) == Some(n) ==> TailWritten(s, n) == s
  {
  }

  /** Whether the window of length `L` at index `i` covers byte `j`. */
  predicate Covers(i: int, L: int, j: int)
  {
    i <= j < i + L
  }

  /** After the tail write, the scan over all `n` bytes still finds every occurrence of a
      NUL-free pattern except those whose window covers the written byte. */
  lemma TailWriteLosesOnlyCoveringWindows(s: seq<byte>, n: nat, pattern: seq<byte>, i: int)
    requires n < |s| && s[n] == NUL && NoNul(pattern)
    ensures OccursAt(TailWritten(s, n)[..n], pattern, i) <==>
      OccursAt(s[..n], pattern, i)
      && (CutIndex(s, n).None? || !Covers(i, |pattern|, CutIndex(s, n).value))
  {
    TailWriteChangesOneByte(s, n);
    var t := TailWritten(s, n);
    if 0 <= i && i + |pattern| <= n {
      match CutIndex(s, n)
      case None =>
      case Some(j) =>
        if Covers(i, |pattern|, j) {
          assert t[..n][i..i + |pattern|][j - i] == NUL;
          assert pattern[j - i] != NUL;
        } else {
          assert t[..n][i..i + |pattern|] == s[..n][i..i + |pattern|];
        }
    }
  }

  /** The same at the level of reported positions. */
  lemma TailWriteSearch(s: seq<byte>, n: nat, pattern: seq<byte>, offset: int)
    requires n < |s| && s[n] == NUL && NoNul(pattern)
    ensures forall p :: p in Search(TailWritten(s, n)[..n], pattern, offset) <==>
      p in Search(s[..n], pattern, offset)
      && (CutIndex(s, n).None? || !Covers(p - offset, |pattern|, CutIndex(s, n).value))
  {
    var t := TailWritten(s, n)[..n];
    forall p
      ensures p in Search(t, pattern, offset) <==>
        p in Search(s[..n], pattern, offset)
        && (CutIndex(s, n).None? || !Covers(p - offset, |pattern|, CutIndex(s, n).value))
    {
      SearchExactAt(t, pattern, offset, p);
      SearchExactAt(s[..n], pattern, offset, p);
      TailWriteLosesOnlyCoveringWindows(s, n, pattern, p - offset);
    }
  }
}
