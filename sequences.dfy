/** Concatenation of a sequence of sequences, the reference against which the
    transaction's flattening of read-write sets is proved. */
module Sequences {

  /** The elements of `ss[0]`, then of `ss[1]`, and so on, in order. */
  function Concat<T>(ss: seq<seq<T>>): seq<T>
  {
    if ss == [] then [] else ss[0] + Concat(ss[1..])
  }

  /** The sum of the lengths of the inner sequences. */
  function TotalCount<T>(ss: seq<seq<T>>): nat
  {
    if ss == [] then 0 else |ss[0]| + TotalCount(ss[1..])
  }

  /** Appending one more inner sequence appends its elements at the end. */
  lemma {:induction false} ConcatAppend<T>(ss: seq<seq<T>>, s: seq<T>)
    ensures Concat(ss + [s]) == Concat(ss) + s
  {
    if ss == [] {
      assert ss + [s] == [s];
      assert Concat([s]) == s + Concat([]);
    } else {
      assert (ss + [s])[0] == ss[0];
      assert (ss + [s])[1..] == ss[1..] + [s];
      ConcatAppend(ss[1..], s);
    }
  }

  /** The concatenation holds exactly as many elements as the parts together. */
  lemma {:induction false} ConcatLength<T>(ss: seq<seq<T>>)
    ensures |Concat(ss)| == TotalCount(ss)
  {
    if ss != [] {
      ConcatLength(ss[1..]);
    }
  }

  /** Element `j` of part `i` sits in the concatenation right after all the
      elements of the parts before `i`. */
  lemma {:induction false} ConcatAt<T>(ss: seq<seq<T>>, i: nat, j: nat)
    requires i < |ss| && j < |ss[i]|
    ensures TotalCount(ss[..i]) + j < |Concat(ss)|
    ensures Concat(ss)[TotalCount(ss[..i]) + j] == ss[i][j]
  {
    if i == 0 {
      assert ss[..0] == [];
    } else {
      ConcatAt(ss[1..], i - 1, j);
      assert ss[..i][0] == ss[0];
      assert ss[..i][1..] == ss[1..][..i - 1];
    }
  }
}
