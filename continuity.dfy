/** `is_continuous_file`: whether the text holds no space and no line break at all. */
module Continuity {
  import opened Bytes

  /** The two bytes that make a file segmented; tab and carriage return do not. */
  predicate Segmenting(b: byte)
  {
    b == SPACE || b == LF
  }

  /** The reference definition: no byte of the file is segmenting. */
  predicate Continuous(file: seq<byte>)
  {
    forall i | 0 <= i < |file| :: !Segmenting(file[i])
  }

  /** The scan of `is_continuous_file`: read bytes until the end, stopping at the
      first space or newline, which clears the flag. */
  method IsContinuousFile(file: seq<byte>) returns (continuous: bool)
    ensures continuous == Continuous(file)
  {
    continuous := true;
    var k := 0;
    while k < |file|
      invariant 0 <= k <= |file|
      invariant forall i | 0 <= i < k :: !Segmenting(file[i])
    {
      if file[k] == SPACE || file[k] == LF {
        continuous := false;
        break;
      }
      k := k + 1;
    }
  }

  /** Continuity is a property of the whole file: a file is continuous exactly when
      both of any two pieces it splits into are. */
  lemma {:induction false} ContinuousSplit(file: seq<byte>, m: nat)
    requires m <= |file|
    ensures Continuous(file) <==> Continuous(file[..m]) && Continuous(file[m..])
  {
    if !Continuous(file) {
      var i :| 0 <= i < |file| && Segmenting(file[i]);
      if i < m {
        assert file[..m][i] == file[i];
      } else {
        assert file[m..][i - m] == file[i];
      }
    }
    if !Continuous(file[..m]) {
      var i :| 0 <= i < m && Segmenting(file[..m][i]);
      assert file[i] == file[..m][i];
    }
    if !Continuous(file[m..]) {
      var i :| 0 <= i < |file| - m && Segmenting(file[m..][i]);
      assert file[m + i] == file[m..][i];
    }
  }
}
