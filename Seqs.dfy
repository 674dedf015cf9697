/** Concatenation of a sequence of sequences, and where each element lands in it. */
module Seqs {

  /** Sum of the lengths of the parts. */
  function TotalLength<T>(ss: seq<seq<T>>): nat {
    if |ss| == 0 then 0 else TotalLength(ss[..|ss| - 1]) + |ss[|ss| - 1]|
  }

  /** The parts laid end to end, in order. */
  function Concat<T>(ss: seq<seq<T>>): (r: seq<T>)
    ensures |r| == TotalLength(ss)
  {
    if |ss| == 0 then [] else Concat(ss[..|ss| - 1]) + ss[|ss| - 1]
  }

  /** Adding one part at the end appends it (the step a filling loop takes). */
  lemma ConcatStep<T>(ss: seq<seq<T>>, k: nat)
    requires k < |ss|
    ensures Concat(ss[..k + 1]) == Concat(ss[..k]) + ss[k]
    ensures TotalLength(ss[..k + 1]) == TotalLength(ss[..k]) + |ss[k]|
  {
    assert ss[..k + 1][..k] == ss[..k];
  }

  /** A prefix of the parts never holds more elements than all of them. */
  lemma {:induction false} TotalLengthPrefix<T>(ss: seq<seq<T>>, k: nat)
    requires k <= |ss|
    ensures TotalLength(ss[..k]) <= TotalLength(ss)
  {
    if k < |ss| {
      assert ss[..|ss| - 1][..k] == ss[..k];
      TotalLengthPrefix(ss[..|ss| - 1], k);
    } else {
      assert ss[..k] == ss;
    }
  }

  /**
   * Element j of part k sits at position TotalLength(ss[..k]) + j of the
   * concatenation: the parts keep their order and their contents.
   */
  lemma {:induction false} ConcatAt<T>(ss: seq<seq<T>>, k: nat, j: nat)
    requires k < |ss| && j < |ss[k]|
    ensures TotalLength(ss[..k]) + j < TotalLength(ss)
    ensures Concat(ss)[TotalLength(ss[..k]) + j] == ss[k][j]
  {
    var n := |ss| - 1;
    if k == n {
      assert ss[..n] == ss[..k];
    } else {
      assert ss[..n][..k] == ss[..k];
      ConcatAt(ss[..n], k, j);
    }
  }
}
