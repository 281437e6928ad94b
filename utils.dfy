/** Small sequence helpers standing in for the library's `Utils.flatten`, and
    the optional result used where the library returns `undefined`. */
module Utils {

  datatype Option<T> = None | Some(value: T)

  /** Concatenation of a sequence of sequences, in order (`Utils.flatten`). */
  function Flatten<T>(ss: seq<seq<T>>): seq<T>
  {
    if |ss| == 0 then [] else Flatten(ss[..|ss| - 1]) + ss[|ss| - 1]
  }

  /** Sum of the lengths of the inner sequences. */
  function TotalLength<T>(ss: seq<seq<T>>): nat
  {
    if |ss| == 0 then 0 else TotalLength(ss[..|ss| - 1]) + |ss[|ss| - 1]|
  }

  lemma {:induction false} FlattenLength<T>(ss: seq<seq<T>>)
    ensures |Flatten(ss)| == TotalLength(ss)
  {
    if |ss| > 0 {
      FlattenLength(ss[..|ss| - 1]);
    }
  }

  /** Element `j` of block `k` sits in the flattened sequence right after all
      the elements of the blocks before `k`. */
  lemma {:induction false} FlattenAt<T>(ss: seq<seq<T>>, k: nat, j: nat)
    requires k < |ss| && j < |ss[k]|
    ensures TotalLength(ss[..k]) + j < |Flatten(ss)|
    ensures Flatten(ss)[TotalLength(ss[..k]) + j] == ss[k][j]
  {
    var n := |ss|;
    FlattenLength(ss);
    FlattenLength(ss[..n - 1]);
    if k == n - 1 {
      assert ss[..n - 1] == ss[..k];
    } else {
      FlattenAt(ss[..n - 1], k, j);
      assert ss[..n - 1][..k] == ss[..k];
      assert ss[..n - 1][k] == ss[k];
    }
  }

  /** Every position of the flattened sequence belongs to a block `k`: the
      first block whose end lies beyond it. */
  lemma {:induction false} FlattenCover<T>(ss: seq<seq<T>>, i: nat) returns (k: nat)
    requires i < |Flatten(ss)|
    ensures k < |ss| && TotalLength(ss[..k]) <= i < TotalLength(ss[..k + 1])
  {
    var n := |ss|;
    FlattenLength(ss);
    assert ss[..n] == ss;
    if i >= TotalLength(ss[..n - 1]) {
      k := n - 1;
      assert ss[..k + 1] == ss;
    } else {
      FlattenLength(ss[..n - 1]);
      k := FlattenCover(ss[..n - 1], i);
      assert ss[..n - 1][..k] == ss[..k];
      assert ss[..n - 1][..k + 1] == ss[..k + 1];
    }
  }

  /** Prefix totals grow by the length of the next block. */
  lemma TotalLengthStep<T>(ss: seq<seq<T>>, k: nat)
    requires k < |ss|
    ensures TotalLength(ss[..k + 1]) == TotalLength(ss[..k]) + |ss[k]|
  {
    assert ss[..k + 1][..k] == ss[..k];
  }

  /** Largest element of a sequence of naturals, 0 for the empty one. */
  function MaxOf(s: seq<nat>): (m: nat)
    ensures forall i :: 0 <= i < |s| ==> s[i] <= m
    ensures |s| == 0 ==> m == 0
    ensures |s| > 0 ==> exists i :: 0 <= i < |s| && s[i] == m
  {
    if |s| == 0 then 0
    else
      var m' := MaxOf(s[..|s| - 1]);
      if s[|s| - 1] > m' then s[|s| - 1] else m'
  }
}
