/** The shrink tree of the property-based testing library: a generated value
    (`top`) together with its ordered shrink candidates (`forest`), and the
    functor / monad algebra over it (src/Tree.ts). */
module Trees {
  import opened Utils

  /** A shrink tree. Index 0 of `forest` is the first shrink tried. The
      library's forest is a thunk recomputed on every access; on finite trees
      that laziness is not observable, so the forest is stored directly.
      The library's `tree(top, forest)` and `tree$(top, forest)` both build
      this constructor. */
  datatype Tree<A> = Tree(top: A, forest: seq<Tree<A>>)

  /** The fully evaluated, depth-bounded snapshot produced by `force`. */
  datatype StrictTree<A> = StrictTree(top: A, forest: seq<StrictTree<A>>)

  // ---------------------------------------------------------------------
  // Size, used as the termination measure of the distribution combinators
  // ---------------------------------------------------------------------

  /** Number of nodes of a tree. */
  function Size<A>(t: Tree<A>): nat
    decreases t
  {
    1 + SizeForest(t.forest)
  }

  /** Total number of nodes of a sequence of trees. */
  function SizeForest<A>(ts: seq<Tree<A>>): nat
    decreases ts
  {
    if |ts| == 0 then 0 else SizeForest(ts[..|ts| - 1]) + Size(ts[|ts| - 1])
  }

  /** Replacing one tree of a sequence changes the total size by the
      difference of the two sizes. */
  lemma {:induction false} SizeForestUpdate<A>(ts: seq<Tree<A>>, k: nat, u: Tree<A>)
    requires k < |ts|
    ensures SizeForest(ts[k := u]) + Size(ts[k]) == SizeForest(ts) + Size(u)
  {
    var n := |ts|;
    if k == n - 1 {
      assert ts[k := u][..n - 1] == ts[..n - 1];
    } else {
      SizeForestUpdate(ts[..n - 1], k, u);
      assert ts[k := u][..n - 1] == ts[..n - 1][k := u];
    }
  }

  /** Each tree of a sequence is at most as large as the whole sequence. */
  lemma {:induction false} SizeForestElement<A>(ts: seq<Tree<A>>, k: nat)
    requires k < |ts|
    ensures Size(ts[k]) <= SizeForest(ts)
  {
    var n := |ts|;
    if k < n - 1 {
      SizeForestElement(ts[..n - 1], k);
    }
  }

  /** A shrink candidate is strictly smaller than the tree it came from. */
  lemma ChildSmaller<A>(t: Tree<A>, j: nat)
    requires j < |t.forest|
    ensures Size(t.forest[j]) < Size(t)
  {
    SizeForestElement(t.forest, j);
  }

  /** Replacing tree `k` of a sequence by one of its own shrink candidates
      makes the sequence strictly smaller. */
  lemma ShrinkOneSmaller<A>(ts: seq<Tree<A>>, k: nat, j: nat)
    requires k < |ts| && j < |ts[k].forest|
    ensures SizeForest(ts[k := ts[k].forest[j]]) < SizeForest(ts)
  {
    ChildSmaller(ts[k], j);
    SizeForestUpdate(ts, k, ts[k].forest[j]);
  }

  // ---------------------------------------------------------------------
  // Construction, chain and map
  // ---------------------------------------------------------------------

  /** `Tree.of`: a value with no shrinks. */
  function Of<A>(a: A): Tree<A>
  {
    Tree(a, [])
  }

  /** A leaf is terminal for the whole algebra: one node, mapped to a leaf,
      forced to a childless snapshot at any depth. */
  lemma OfIsLeaf<A, B>(a: A, f: A -> B, depth: int)
    ensures Of(a).top == a && Of(a).forest == []
    ensures Size(Of(a)) == 1
    ensures Map(Of(a), f) == Of(f(a))
    ensures Force(Of(a), depth) == StrictTree(a, [])
  {
  }

  /** `chain` (monadic bind). With `u = f(t.top)`, the result's top is
      `u.top`; its forest is every child of `t` re-chained through `f`,
      followed by the children of `u`. */
  function Chain<A, B>(t: Tree<A>, f: A -> Tree<B>): Tree<B>
    decreases t
  {
    var u := f(t.top);
    Tree(u.top, seq(|t.forest|, i requires 0 <= i < |t.forest| => Chain(t.forest[i], f)) + u.forest)
  }

  /** `map`, written as the library writes it: chain into leaves. */
  function Map<A, B>(t: Tree<A>, f: A -> B): Tree<B>
  {
    Chain(t, a => Of(f(a)))
  }

  /** Position by position, the forest of `Chain(t, f)` is first the children
      of `t` chained through `f`, then the children of `f(t.top)`. */
  lemma ChainForestOrder<A, B>(t: Tree<A>, f: A -> Tree<B>)
    ensures Chain(t, f).top == f(t.top).top
    ensures |Chain(t, f).forest| == |t.forest| + |f(t.top).forest|
    ensures forall i :: 0 <= i < |t.forest| ==> Chain(t, f).forest[i] == Chain(t.forest[i], f)
    ensures forall j :: 0 <= j < |f(t.top).forest| ==>
              Chain(t, f).forest[|t.forest| + j] == f(t.top).forest[j]
  {
  }

  /** Chaining with pointwise-equal continuations gives equal trees. */
  lemma {:induction false} ChainCongruence<A, B>(t: Tree<A>, f: A -> Tree<B>, g: A -> Tree<B>)
    requires forall a :: f(a) == g(a)
    ensures Chain(t, f) == Chain(t, g)
    decreases t
  {
    forall i | 0 <= i < |t.forest| ensures Chain(t.forest[i], f) == Chain(t.forest[i], g) {
      ChainCongruence(t.forest[i], f, g);
    }
  }

  /** Left identity: a leaf has nothing to contribute but its value. */
  lemma ChainOfLeft<A, B>(a: A, f: A -> Tree<B>)
    ensures Chain(Of(a), f) == f(a)
  {
  }

  /** Right identity: chaining into leaves rebuilds the tree. */
  lemma {:induction false} ChainOfRight<A>(t: Tree<A>)
    ensures Chain(t, a => Of(a)) == t
    decreases t
  {
    var r := Chain(t, a => Of(a));
    forall i | 0 <= i < |t.forest| ensures r.forest[i] == t.forest[i] {
      ChainOfRight(t.forest[i]);
    }
    assert r.forest == t.forest;
  }

  /** Associativity of chain. */
  lemma {:induction false} ChainAssociative<A, B, C>(t: Tree<A>, f: A -> Tree<B>, g: B -> Tree<C>)
    ensures Chain(Chain(t, f), g) == Chain(t, a => Chain(f(a), g))
    decreases t
  {
    var h := a => Chain(f(a), g);
    var u := f(t.top);
    var lhs := Chain(Chain(t, f), g);
    var rhs := Chain(t, h);
    var n, m := |t.forest|, |u.forest|;
    ChainForestOrder(t, f);
    ChainForestOrder(Chain(t, f), g);
    ChainForestOrder(t, h);
    ChainForestOrder(u, g);
    assert |lhs.forest| == |rhs.forest|;
    forall i | 0 <= i < |lhs.forest| ensures lhs.forest[i] == rhs.forest[i] {
      if i < n {
        ChainAssociative(t.forest[i], f, g);
      }
    }
  }

  /** `map` keeps the shape: the value at the root is `f` of the original and
      the children are the mapped children, in the same order. */
  lemma MapUnfold<A, B>(t: Tree<A>, f: A -> B)
    ensures Map(t, f).top == f(t.top)
    ensures |Map(t, f).forest| == |t.forest|
    ensures forall i :: 0 <= i < |t.forest| ==> Map(t, f).forest[i] == Map(t.forest[i], f)
  {
  }

  /** `u` is `t` with `f` applied at every node, shape unchanged. */
  ghost predicate Pointwise<A, B>(t: Tree<A>, u: Tree<B>, f: A -> B)
    decreases t
  {
    && u.top == f(t.top)
    && |u.forest| == |t.forest|
    && forall i :: 0 <= i < |t.forest| ==> Pointwise(t.forest[i], u.forest[i], f)
  }

  /** At every depth, `Map(t, f)` has the shape of `t` and holds `f` of the
      original value. */
  lemma {:induction false} MapPointwise<A, B>(t: Tree<A>, f: A -> B)
    ensures Pointwise(t, Map(t, f), f)
    decreases t
  {
    MapUnfold(t, f);
    forall i | 0 <= i < |t.forest| ensures Pointwise(t.forest[i], Map(t, f).forest[i], f) {
      MapPointwise(t.forest[i], f);
    }
  }

  /** Conversely, the only tree related pointwise to `t` by `f` is `Map(t, f)`. */
  lemma {:induction false} PointwiseIsMap<A, B>(t: Tree<A>, u: Tree<B>, f: A -> B)
    requires Pointwise(t, u, f)
    ensures u == Map(t, f)
    decreases t
  {
    MapUnfold(t, f);
    forall i | 0 <= i < |t.forest| ensures u.forest[i] == Map(t, f).forest[i] {
      PointwiseIsMap(t.forest[i], u.forest[i], f);
    }
    assert u.forest == Map(t, f).forest;
  }

  /** Functor identity law. */
  lemma {:induction false} MapIdentity<A>(t: Tree<A>)
    ensures Map(t, a => a) == t
    decreases t
  {
    MapUnfold(t, a => a);
    forall i | 0 <= i < |t.forest| ensures Map(t, a => a).forest[i] == t.forest[i] {
      MapIdentity(t.forest[i]);
    }
    assert Map(t, a => a).forest == t.forest;
  }

  /** Functor composition law. */
  lemma {:induction false} MapCompose<A, B, C>(t: Tree<A>, f: A -> B, g: B -> C)
    ensures Map(Map(t, f), g) == Map(t, a => g(f(a)))
    decreases t
  {
    var lhs, rhs := Map(Map(t, f), g), Map(t, a => g(f(a)));
    MapUnfold(t, f);
    MapUnfold(Map(t, f), g);
    MapUnfold(t, a => g(f(a)));
    forall i | 0 <= i < |t.forest| ensures lhs.forest[i] == rhs.forest[i] {
      MapCompose(t.forest[i], f, g);
    }
    assert lhs.forest == rhs.forest;
  }

  /** `map` keeps the number of nodes. */
  lemma {:induction false} MapSize<A, B>(t: Tree<A>, f: A -> B)
    ensures Size(Map(t, f)) == Size(t)
    decreases t
  {
    MapUnfold(t, f);
    forall i | 0 <= i < |t.forest| ensures Size(Map(t.forest[i], f)) == Size(t.forest[i]) {
      MapSize(t.forest[i], f);
    }
    SizeForestMapped(t.forest, Map(t, f).forest);
  }

  /** Two sequences of trees with matching sizes have the same total size. */
  lemma {:induction false} SizeForestMapped<A, B>(ts: seq<Tree<A>>, us: seq<Tree<B>>)
    requires |ts| == |us|
    requires forall i :: 0 <= i < |ts| ==> Size(us[i]) == Size(ts[i])
    ensures SizeForest(us) == SizeForest(ts)
  {
    if |ts| > 0 {
      SizeForestMapped(ts[..|ts| - 1], us[..|us| - 1]);
    }
  }

  /** Every node of `t`, at any depth, satisfies `P`. */
  ghost predicate EveryNode<A>(t: Tree<A>, P: A -> bool)
    decreases t
  {
    P(t.top) && forall i :: 0 <= i < |t.forest| ==> EveryNode(t.forest[i], P)
  }

  /** When every value `f` produces satisfies `P`, so does every node of a
      mapped tree. */
  lemma {:induction false} MapEveryNode<A, B>(t: Tree<A>, f: A -> B, P: B -> bool)
    requires forall a :: P(f(a))
    ensures EveryNode(Map(t, f), P)
    decreases t
  {
    MapUnfold(t, f);
    forall i | 0 <= i < |t.forest| ensures EveryNode(Map(t, f).forest[i], P) {
      MapEveryNode(t.forest[i], f, P);
    }
  }

  // ---------------------------------------------------------------------
  // force: the debugging snapshot
  // ---------------------------------------------------------------------

  /** `force(depth)`: the tree evaluated down to `depth` levels; a negative
      depth never reaches 0 and evaluates the whole tree. */
  function Force<A>(t: Tree<A>, depth: int := -1): StrictTree<A>
    decreases t
  {
    StrictTree(t.top,
      if depth == 0 then []
      else seq(|t.forest|, i requires 0 <= i < |t.forest| => Force(t.forest[i], depth - 1)))
  }

  /** The whole tree as a snapshot. */
  function Materialize<A>(t: Tree<A>): StrictTree<A>
    decreases t
  {
    StrictTree(t.top, seq(|t.forest|, i requires 0 <= i < |t.forest| => Materialize(t.forest[i])))
  }

  /** Number of levels below the root of a snapshot. */
  function Height<A>(s: StrictTree<A>): nat
    decreases s, 1
  {
    if |s.forest| == 0 then 0 else 1 + MaxOf(ChildHeights(s))
  }

  /** The heights of the children of a snapshot, in order. */
  function ChildHeights<A>(s: StrictTree<A>): seq<nat>
    decreases s, 0
  {
    seq(|s.forest|, i requires 0 <= i < |s.forest| => Height(s.forest[i]))
  }

  /** With a negative depth, `force` evaluates the entire tree. */
  lemma {:induction false} ForceUnbounded<A>(t: Tree<A>, depth: int)
    requires depth < 0
    ensures Force(t, depth) == Materialize(t)
    decreases t
  {
    forall i | 0 <= i < |t.forest| ensures Force(t.forest[i], depth - 1) == Materialize(t.forest[i]) {
      ForceUnbounded(t.forest[i], depth - 1);
    }
    assert Force(t, depth).forest == Materialize(t).forest;
  }

  /** With a depth of at least 0, `force` keeps the root's value and the
      snapshot is at most `depth` levels deep; depth 0 gives no children. */
  lemma {:induction false} ForceBounded<A>(t: Tree<A>, depth: int)
    requires depth >= 0
    ensures Force(t, depth).top == t.top
    ensures Height(Force(t, depth)) <= depth
    ensures depth == 0 ==> Force(t, depth).forest == []
    decreases t
  {
    var s := Force(t, depth);
    if depth > 0 && |t.forest| > 0 {
      var hs := ChildHeights(s);
      forall i | 0 <= i < |hs| ensures hs[i] <= depth - 1 {
        assert s.forest[i] == Force(t.forest[i], depth - 1);
        ForceBounded(t.forest[i], depth - 1);
      }
      var m := MaxOf(hs);
      var i :| 0 <= i < |hs| && hs[i] == m;
      assert Height(s) == 1 + m;
    }
  }

}
