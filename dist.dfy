/** Combining several independently shrinkable trees into one tree of
    records: the biased nested-chain pairing and the fair distribution
    (src/Tree.ts, `left_first_pair`, `fair_pair`, `dist`, `dist_array`).
    A record is modelled positionally: keys are 0 .. n-1 in enumeration
    order and the record is the sequence of its field values. */
module Distribution {
  import opened Utils
  import opened Trees

  /** The record of the current values of every key. */
  function Tops<A>(ts: seq<Tree<A>>): seq<A>
  {
    seq(|ts|, k requires 0 <= k < |ts| => ts[k].top)
  }

  /** `dist`: the root holds every key's top; its forest is, key after key in
      enumeration order, one child per shrink of that key, with the other
      keys held at their current trees. */
  function Dist<A>(ts: seq<Tree<A>>): Tree<seq<A>>
    decreases SizeForest(ts), 2
  {
    Tree(Tops(ts), Flatten(ShrinkAll(ts)))
  }

  /** The per-key blocks of the forest, in key order. */
  function ShrinkAll<A>(ts: seq<Tree<A>>): seq<seq<Tree<seq<A>>>>
    decreases SizeForest(ts), 1
  {
    seq(|ts|, k requires 0 <= k < |ts| => ShrinkOne(ts, k))
  }

  /** The children contributed by key `k`: one per shrink of `ts[k]`. */
  function ShrinkOne<A>(ts: seq<Tree<A>>, k: nat): seq<Tree<seq<A>>>
    requires k < |ts|
    decreases SizeForest(ts), 0
  {
    seq(|ts[k].forest|, j requires 0 <= j < |ts[k].forest| =>
      ShrinkOneSmaller(ts, k, j);
      Dist(ts[k := ts[k].forest[j]]))
  }

  /** `dist_array`: the same distribution over an array of trees. Turning the
      positional record back into an array is the identity here. */
  function DistArray<A>(ts: seq<Tree<A>>): Tree<seq<A>>
  {
    Dist(ts)
  }

  /** Number of shrinks of the trees of `ts` together. */
  function ChildCount<A>(ts: seq<Tree<A>>): nat
  {
    if |ts| == 0 then 0 else ChildCount(ts[..|ts| - 1]) + |ts[|ts| - 1].forest|
  }

  /** Where the children contributed by key `k` start in `Dist(ts).forest`. */
  function Offset<A>(ts: seq<Tree<A>>, k: nat): nat
    requires k <= |ts|
  {
    ChildCount(ts[..k])
  }

  /** The prefix sums of the block lengths are the prefix child counts. */
  lemma {:induction false} BlockLengths<A>(ts: seq<Tree<A>>, k: nat)
    requires k <= |ts|
    ensures TotalLength(ShrinkAll(ts)[..k]) == Offset(ts, k)
  {
    if k > 0 {
      BlockLengths(ts, k - 1);
      TotalLengthStep(ShrinkAll(ts), k - 1);
      assert ts[..k][..k - 1] == ts[..k - 1];
    }
  }

  /** The root of `Dist(ts)` holds the per-key tops and has exactly as many
      children as all the keys have shrinks together. */
  lemma DistRoot<A>(ts: seq<Tree<A>>)
    ensures |Dist(ts).top| == |ts|
    ensures forall k :: 0 <= k < |ts| ==> Dist(ts).top[k] == ts[k].top
    ensures |Dist(ts).forest| == ChildCount(ts)
  {
    FlattenLength(ShrinkAll(ts));
    BlockLengths(ts, |ts|);
    assert ts[..|ts|] == ts;
    assert ShrinkAll(ts)[..|ts|] == ShrinkAll(ts);
  }

  /** Over no keys, `dist` is a leaf holding the empty record. */
  lemma DistNoKeys<A>(ts: seq<Tree<A>>)
    requires |ts| == 0
    ensures Dist(ts) == Tree([], [])
  {
    assert Tops(ts) == [];
    assert ShrinkAll(ts) == [];
  }

  /** Shrink `j` of key `k` is the child at `Offset(ts, k) + j`: the
      distribution of the same trees with only tree `k` replaced by that
      shrink, so its record differs from the root's at most in field `k`,
      which holds the shrink's value. */
  lemma DistChildAt<A>(ts: seq<Tree<A>>, k: nat, j: nat)
    requires k < |ts| && j < |ts[k].forest|
    ensures Offset(ts, k) + j < Offset(ts, k + 1) <= |Dist(ts).forest|
    ensures Dist(ts).forest[Offset(ts, k) + j] == Dist(ts[k := ts[k].forest[j]])
    ensures Dist(ts).forest[Offset(ts, k) + j].top == Dist(ts).top[k := ts[k].forest[j].top]
  {
    DistChildPosition(ts, k, j);
    var c := ts[k].forest[j];
    assert Tops(ts[k := c]) == Tops(ts)[k := c.top];
  }

  /** The position part of `DistChildAt`. */
  lemma DistChildPosition<A>(ts: seq<Tree<A>>, k: nat, j: nat)
    requires k < |ts| && j < |ts[k].forest|
    ensures Offset(ts, k) + j < Offset(ts, k + 1) <= |Dist(ts).forest|
    ensures Dist(ts).forest[Offset(ts, k) + j] == Dist(ts[k := ts[k].forest[j]])
  {
    var blocks := ShrinkAll(ts);
    assert blocks[k] == ShrinkOne(ts, k);
    FlattenAt(blocks, k, j);
    BlockLengths(ts, k);
    BlockLengths(ts, k + 1);
    TotalLengthStep(blocks, k);
    ChildCountMonotone(ts, k + 1, |ts|);
    DistRoot(ts);
    assert ts[..|ts|] == ts;
  }


  /** Prefix child counts grow with the prefix. */
  lemma {:induction false} ChildCountMonotone<A>(ts: seq<Tree<A>>, k: nat, l: nat)
    requires k <= l <= |ts|
    ensures ChildCount(ts[..k]) <= ChildCount(ts[..l])
    decreases l - k
  {
    if k < l {
      ChildCountMonotone(ts, k + 1, l);
      assert ts[..k + 1][..k] == ts[..k];
    }
  }

  /** Fairness: every child of `Dist(ts)` shrinks exactly one key `k`, by one
      of `ts[k]`'s shrinks, and lies in key `k`'s block, so the children of
      all keys are siblings in key order. */
  lemma DistChildShrinksOneKey<A>(ts: seq<Tree<A>>, i: nat)
    requires i < |Dist(ts).forest|
    ensures exists k: nat, j: nat :: k < |ts| && j < |ts[k].forest| && i == Offset(ts, k) + j
              && Dist(ts).forest[i] == Dist(ts[k := ts[k].forest[j]])
  {
    var k, j := ChildKey(ts, i);
    DistChildPosition(ts, k, j);
  }

  /** The key and the shrink of that key that child `i` of `Dist(ts)` comes from. */
  lemma ChildKey<A>(ts: seq<Tree<A>>, i: nat) returns (k: nat, j: nat)
    requires i < |Dist(ts).forest|
    ensures k < |ts| && j < |ts[k].forest| && i == Offset(ts, k) + j
  {
    var blocks := ShrinkAll(ts);
    assert i < |Flatten(blocks)|;
    k := FlattenCover(blocks, i);
    BlockLengths(ts, k);
    BlockLengths(ts, k + 1);
    TotalLengthStep(blocks, k);
    assert |blocks[k]| == |ts[k].forest|;
    j := i - Offset(ts, k);
  }


  /** The key blocks do not overlap: a child position determines the key it
      shrinks and which of that key's shrinks it is. */
  lemma DistBlocksDisjoint<A>(ts: seq<Tree<A>>, k: nat, j: nat, k2: nat, j2: nat)
    requires k < |ts| && j < |ts[k].forest|
    requires k2 < |ts| && j2 < |ts[k2].forest|
    requires Offset(ts, k) + j == Offset(ts, k2) + j2
    ensures k == k2 && j == j2
  {
    DistChildAt(ts, k, j);
    DistChildAt(ts, k2, j2);
    if k < k2 {
      ChildCountMonotone(ts, k + 1, k2);
    } else if k2 < k {
      ChildCountMonotone(ts, k2 + 1, k);
    }
  }

  /** Every node of `Dist(ts)`, at any depth, is a record of `|ts|` fields. */
  lemma {:induction false} DistRecordLength<A>(ts: seq<Tree<A>>)
    ensures EveryNode(Dist(ts), (r: seq<A>) => |r| == |ts|)
    decreases SizeForest(ts)
  {
    var d := Dist(ts);
    DistRoot(ts);
    forall i | 0 <= i < |d.forest| ensures EveryNode(d.forest[i], (r: seq<A>) => |r| == |ts|) {
      var k, j := ChildKey(ts, i);
      DistChildPosition(ts, k, j);
      ShrinkOneSmaller(ts, k, j);
      DistRecordLength(ts[k := ts[k].forest[j]]);
    }
  }

  /** `dist_array` keeps the array length at every node. */
  lemma DistArrayLength<A>(ts: seq<Tree<A>>)
    ensures EveryNode(DistArray(ts), (r: seq<A>) => |r| == |ts|)
  {
    DistRecordLength(ts);
  }

  // ---------------------------------------------------------------------
  // Pairs
  // ---------------------------------------------------------------------

  /** `left_first_pair`: nested chains, all shrinks of the first component
      before any of the second. */
  function LeftFirstPair<A, B>(ta: Tree<A>, tb: Tree<B>): Tree<(A, B)>
  {
    Chain(ta, a => Chain(tb, b => Of((a, b))))
  }

  /** The bias of `left_first_pair`: the first |ta.forest| children shrink the
      first component and are again left-first pairs; the remaining children
      shrink only the second component, and below them the first component
      is frozen at its current value. */
  lemma LeftFirstPairUnfold<A, B>(ta: Tree<A>, tb: Tree<B>)
    ensures LeftFirstPair(ta, tb).top == (ta.top, tb.top)
    ensures |LeftFirstPair(ta, tb).forest| == |ta.forest| + |tb.forest|
    ensures forall i :: 0 <= i < |ta.forest| ==>
              LeftFirstPair(ta, tb).forest[i] == LeftFirstPair(ta.forest[i], tb)
    ensures forall j :: 0 <= j < |tb.forest| ==>
              LeftFirstPair(ta, tb).forest[|ta.forest| + j] == Map(tb.forest[j], b => (ta.top, b))
  {
    var g := a => Chain(tb, b => Of((a, b)));
    var a0 := ta.top;
    ChainForestOrder(ta, g);
    ChainCongruence(tb, b => Of((a0, b)), (b: B) => Of(((b0: B) => (a0, b0))(b)));
    MapUnfold(tb, b => (a0, b));
  }

  /** Below a second-component shrink of a left-first pair, every node keeps
      the first component at its current value. */
  lemma LeftFirstPairFreezesFirst<A, B>(ta: Tree<A>, tb: Tree<B>, j: nat)
    requires j < |tb.forest|
    ensures EveryNode(LeftFirstPair(ta, tb).forest[|ta.forest| + j], (p: (A, B)) => p.0 == ta.top)
  {
    LeftFirstPairUnfold(ta, tb);
    var a0 := ta.top;
    MapEveryNode(tb.forest[j], b => (a0, b), (p: (A, B)) => p.0 == a0);
  }

  /** A pair's two components as a two-field record over a sum type. */
  datatype Field<A, B> = First(a: A) | Second(b: B)

  function InFirst<A, B>(a: A): Field<A, B> { First(a) }
  function InSecond<A, B>(b: B): Field<A, B> { Second(b) }

  function Pack<A, B>(p: (A, B)): seq<Field<A, B>>
  {
    [First(p.0), Second(p.1)]
  }

  /** `fair_pair`: the two-key distribution, projected back to pairs. Every
      shrink of either component is a sibling of the others, and after a
      shrink of either component both remain shrinkable. */
  function FairPair<A, B>(ta: Tree<A>, tb: Tree<B>): Tree<(A, B)>
    decreases ta, tb
  {
    Tree((ta.top, tb.top),
      seq(|ta.forest|, i requires 0 <= i < |ta.forest| => FairPair(ta.forest[i], tb))
      + seq(|tb.forest|, j requires 0 <= j < |tb.forest| => FairPair(ta, tb.forest[j])))
  }

  /** One level of `FairPair`: shrinks of the first component, then of the
      second, each child again a fair pair. */
  lemma FairPairUnfold<A, B>(ta: Tree<A>, tb: Tree<B>)
    ensures FairPair(ta, tb).top == (ta.top, tb.top)
    ensures |FairPair(ta, tb).forest| == |ta.forest| + |tb.forest|
    ensures forall i :: 0 <= i < |ta.forest| ==> FairPair(ta, tb).forest[i] == FairPair(ta.forest[i], tb)
    ensures forall j :: 0 <= j < |tb.forest| ==>
              FairPair(ta, tb).forest[|ta.forest| + j] == FairPair(ta, tb.forest[j])
  {
  }

  /** `fair_pair` is `dist` over the record {a, b}: packing every pair of
      `FairPair(ta, tb)` into a two-field record gives exactly the
      distribution of the two trees. */
  lemma {:induction false} FairPairIsDist<A, B>(ta: Tree<A>, tb: Tree<B>)
    ensures Map(FairPair(ta, tb), Pack) == Dist([Map(ta, InFirst<A, B>), Map(tb, InSecond<A, B>)])
    decreases ta, tb
  {
    var fp := FairPair(ta, tb);
    var ma, mb := Map(ta, InFirst<A, B>), Map(tb, InSecond<A, B>);
    var ts := [ma, mb];
    var lhs, rhs := Map(fp, Pack), Dist(ts);
    var n, m := |ta.forest|, |tb.forest|;
    MapUnfold(fp, Pack);
    MapUnfold(ta, InFirst<A, B>);
    MapUnfold(tb, InSecond<A, B>);
    DistRoot(ts);
    assert ts[..0] == [] && ts[..1] == [ma];
    assert ChildCount([ma]) == n;
    forall i | 0 <= i < n ensures lhs.forest[i] == rhs.forest[i] {
      DistChildAt(ts, 0, i);
      assert ts[0 := ma.forest[i]] == [Map(ta.forest[i], InFirst<A, B>), mb];
      FairPairIsDist(ta.forest[i], tb);
    }
    forall i | n <= i < n + m ensures lhs.forest[i] == rhs.forest[i] {
      var j := i - n;
      DistChildAt(ts, 1, j);
      assert ts[1 := mb.forest[j]] == [ma, Map(tb.forest[j], InSecond<A, B>)];
      FairPairIsDist(ta, tb.forest[j]);
    }
    assert lhs.top == rhs.top;
    assert lhs.forest == rhs.forest;
  }

  /** At the root both pairings offer the same number of shrinks, each
      changing exactly one component; they differ in what lies below. */
  lemma PairsAgreeAtRoot<A, B>(ta: Tree<A>, tb: Tree<B>)
    ensures LeftFirstPair(ta, tb).top == FairPair(ta, tb).top == (ta.top, tb.top)
    ensures |LeftFirstPair(ta, tb).forest| == |FairPair(ta, tb).forest| == |ta.forest| + |tb.forest|
    ensures forall i :: 0 <= i < |ta.forest| ==>
              LeftFirstPair(ta, tb).forest[i].top == FairPair(ta, tb).forest[i].top == (ta.forest[i].top, tb.top)
    ensures forall j :: 0 <= j < |tb.forest| ==>
              LeftFirstPair(ta, tb).forest[|ta.forest| + j].top == FairPair(ta, tb).forest[|ta.forest| + j].top
                == (ta.top, tb.forest[j].top)
  {
    var lf, fp := LeftFirstPair(ta, tb), FairPair(ta, tb);
    var n := |ta.forest|;
    LeftFirstPairUnfold(ta, tb);
    FairPairUnfold(ta, tb);
    forall i | 0 <= i < n ensures lf.forest[i].top == (ta.forest[i].top, tb.top) {
      LeftFirstPairUnfold(ta.forest[i], tb);
    }
    forall i | 0 <= i < n ensures fp.forest[i].top == (ta.forest[i].top, tb.top) {
      FairPairUnfold(ta.forest[i], tb);
    }
    forall j | 0 <= j < |tb.forest| ensures lf.forest[n + j].top == (ta.top, tb.forest[j].top) {
      MapUnfold(tb.forest[j], b => (ta.top, b));
    }
    forall j | 0 <= j < |tb.forest| ensures fp.forest[n + j].top == (ta.top, tb.forest[j].top) {
      FairPairUnfold(ta, tb.forest[j]);
    }
  }


  /** Pairing a tree for 3 (shrinks 0, 1, 2) with a tree for "ab" (shrinks
      "a", ""): five siblings, the first component's shrinks first, each
      changing one side only. */
  lemma FairPairExample()
    ensures var fp := FairPair(Tree(3, [Of(0), Of(1), Of(2)]), Tree("ab", [Of("a"), Of("")]));
      && fp.top == (3, "ab")
      && |fp.forest| == 5
      && fp.forest[0].top == (0, "ab") && fp.forest[1].top == (1, "ab") && fp.forest[2].top == (2, "ab")
      && fp.forest[3].top == (3, "a") && fp.forest[4].top == (3, "")
  {
  }
}
