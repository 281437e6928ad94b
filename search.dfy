/** The greedy, leftmost, no-backtracking descent used to shrink a failing
    value (src/Tree.ts, `left_first_search` and its inner `dfs`). */
module Search {
  import opened Utils
  import opened Trees

  /** The node the search stopped at, with the fuel left. */
  datatype Found<A> = Found(tree: Tree<A>, fuel: int)

  // ---------------------------------------------------------------------
  // Specification of `dfs`, step by step as the loop inspects children
  // ---------------------------------------------------------------------

  /** What `dfs(t, fuel)` returns. */
  function Dfs<A>(p: A -> bool, t: Tree<A>, fuel: int): Found<A>
    decreases t, |t.forest| + 1
  {
    Scan(p, t, 0, fuel)
  }

  /** What the loop of `dfs(t, ...)` returns once children `0 .. i-1` have
      been inspected without a match and `fuel` is left: fuel 0 stops the
      scan at `t`; otherwise child `i` costs one unit of fuel and, if it
      satisfies `p`, the search descends into it. */
  function Scan<A>(p: A -> bool, t: Tree<A>, i: nat, fuel: int): Found<A>
    requires i <= |t.forest|
    decreases t, |t.forest| - i
  {
    if i == |t.forest| then Found(t, fuel)
    else if fuel == 0 then Found(t, fuel)
    else if p(t.forest[i].top) then Dfs(p, t.forest[i], fuel - 1)
    else Scan(p, t, i + 1, fuel - 1)
  }

  // ---------------------------------------------------------------------
  // Reference definition: the leftmost greedy path, without fuel
  // ---------------------------------------------------------------------

  /** Index of the first tree whose top satisfies `p`, or `|ts|` if none does. */
  function FirstMatch<A>(p: A -> bool, ts: seq<Tree<A>>): (i: nat)
    ensures i <= |ts|
    ensures forall j :: 0 <= j < i ==> !p(ts[j].top)
    ensures i < |ts| ==> p(ts[i].top)
  {
    if |ts| == 0 then 0
    else if p(ts[0].top) then 0
    else 1 + FirstMatch(p, ts[1..])
  }

  /** The node reached by always descending into the first satisfying child,
      stopping where no child satisfies `p`. */
  function Greedy<A>(p: A -> bool, t: Tree<A>): Tree<A>
    decreases t
  {
    var i := FirstMatch(p, t.forest);
    if i == |t.forest| then t else Greedy(p, t.forest[i])
  }

  /** Number of children inspected along the greedy path: at each node, the
      children before the first match plus the match itself, and at the last
      node all of its children. */
  function Cost<A>(p: A -> bool, t: Tree<A>): nat
    decreases t
  {
    var i := FirstMatch(p, t.forest);
    if i == |t.forest| then |t.forest| else i + 1 + Cost(p, t.forest[i])
  }

  /** `r` is one of the nodes on the greedy path from `t`. */
  ghost predicate OnGreedyPath<A>(p: A -> bool, t: Tree<A>, r: Tree<A>)
    decreases t
  {
    var i := FirstMatch(p, t.forest);
    r == t || (i < |t.forest| && OnGreedyPath(p, t.forest[i], r))
  }

  /** Every node on the greedy path from a satisfying root satisfies `p`, and
      the path ends at a node none of whose children satisfies `p`. */
  lemma {:induction false} GreedyPathSatisfies<A>(p: A -> bool, t: Tree<A>, r: Tree<A>)
    requires p(t.top)
    ensures OnGreedyPath(p, t, r) ==> p(r.top)
    ensures OnGreedyPath(p, t, Greedy(p, t))
    ensures forall j :: 0 <= j < |Greedy(p, t).forest| ==> !p(Greedy(p, t).forest[j].top)
    decreases t
  {
    var i := FirstMatch(p, t.forest);
    if i < |t.forest| {
      GreedyPathSatisfies(p, t.forest[i], r);
    }
  }

  // ---------------------------------------------------------------------
  // Fuel accounting
  // ---------------------------------------------------------------------

  /** With unbounded fuel (negative) or fuel covering the whole greedy path,
      `dfs` ends at the greedy node and has spent exactly one unit per
      inspected child; with less fuel it spends all of it and stops at a node
      on the greedy path. */
  lemma {:induction false} DfsFollowsGreedy<A>(p: A -> bool, t: Tree<A>, fuel: int)
    ensures fuel < 0 || fuel >= Cost(p, t) ==> Dfs(p, t, fuel) == Found(Greedy(p, t), fuel - Cost(p, t))
    ensures 0 <= fuel < Cost(p, t) ==> Dfs(p, t, fuel).fuel == 0 && OnGreedyPath(p, t, Dfs(p, t, fuel).tree)
    decreases t, |t.forest| + 1
  {
    ScanFollowsGreedy(p, t, 0, fuel);
  }

  /** The loop's share of `DfsFollowsGreedy`: after `i` children that do not
      match, `Cost(p, t) - i` units remain to be spent. */
  lemma {:induction false} ScanFollowsGreedy<A>(p: A -> bool, t: Tree<A>, i: nat, fuel: int)
    requires i <= FirstMatch(p, t.forest)
    ensures fuel < 0 || fuel >= Cost(p, t) - i ==>
              Scan(p, t, i, fuel) == Found(Greedy(p, t), fuel - (Cost(p, t) - i))
    ensures 0 <= fuel < Cost(p, t) - i ==>
              Scan(p, t, i, fuel).fuel == 0 && OnGreedyPath(p, t, Scan(p, t, i, fuel).tree)
    decreases t, |t.forest| - i
  {
    var m := FirstMatch(p, t.forest);
    if i == |t.forest| {
    } else if fuel == 0 {
    } else if p(t.forest[i].top) {
      DfsFollowsGreedy(p, t.forest[i], fuel - 1);
    } else {
      ScanFollowsGreedy(p, t, i + 1, fuel - 1);
    }
  }

  /** What the caller of `left_first_search` relies on. From a satisfying
      root: the result satisfies `p`; unless fuel ran out, none of its
      children satisfies `p`; a negative budget never reaches 0; a budget of
      at least 0 ends in [0, fuel], and `fuel - result` is the number of
      children inspected. */
  lemma DfsResult<A>(p: A -> bool, t: Tree<A>, fuel: int)
    requires p(t.top)
    ensures p(Dfs(p, t, fuel).tree.top)
    ensures OnGreedyPath(p, t, Dfs(p, t, fuel).tree)
    ensures Dfs(p, t, fuel).fuel == 0
              || forall j :: 0 <= j < |Dfs(p, t, fuel).tree.forest| ==> !p(Dfs(p, t, fuel).tree.forest[j].top)
    ensures fuel < 0 ==> Dfs(p, t, fuel).fuel == fuel - Cost(p, t) < 0
    ensures fuel >= 0 ==> 0 <= Dfs(p, t, fuel).fuel <= fuel
    ensures fuel >= 0 ==> fuel - Dfs(p, t, fuel).fuel == if fuel < Cost(p, t) then fuel else Cost(p, t)
  {
    DfsFollowsGreedy(p, t, fuel);
    GreedyPathSatisfies(p, t, Dfs(p, t, fuel).tree);
  }

  // ---------------------------------------------------------------------
  // The search itself
  // ---------------------------------------------------------------------

  /** `dfs`: scan the forest in order, one unit of fuel per inspected child
      (the matching one included), descend into the first child satisfying
      `p`, and stop at the current node when fuel reaches 0 or no child
      matches. */
  method DepthFirst<A>(p: A -> bool, t: Tree<A>, fuel: int) returns (r: Found<A>)
    ensures r == Dfs(p, t, fuel)
    decreases t
  {
    var forest := t.forest;
    var left := fuel;
    for i := 0 to |forest|
      invariant Scan(p, t, i, left) == Dfs(p, t, fuel)
    {
      if left == 0 {
        break;
      }
      left := left - 1;
      if p(forest[i].top) {
        r := DepthFirst(p, forest[i], left);
        return;
      }
    }
    r := Found(t, left);
  }

  /** `left_first_search(p, fuel = -1)`: no result when the root itself does
      not satisfy `p`; otherwise the node `dfs` reaches, with the fuel left. */
  method LeftFirstSearch<A>(t: Tree<A>, p: A -> bool, fuel: int := -1) returns (r: Option<Found<A>>)
    ensures r.None? <==> !p(t.top)
    ensures r.Some? ==> r.value == Dfs(p, t, fuel)
  {
    if p(t.top) {
      var found := DepthFirst(p, t, fuel);
      r := Some(found);
    } else {
      r := None;
    }
  }

  // ---------------------------------------------------------------------
  // Worked examples
  // ---------------------------------------------------------------------

  /** A leaf has nothing to descend into: the search returns it with the
      fuel untouched. */
  lemma SearchLeaf(a: int, fuel: int)
    ensures Dfs(x => x < 10, Of(a), fuel) == Found(Of(a), fuel)
  {
  }

  /** With unbounded fuel on `tree(10, [of(5), of(8)])` and a predicate true
      everywhere, the search takes the first child and has spent one unit. */
  lemma SearchTakesLeftmost()
    ensures Dfs(x => true, Tree(10, [Of(5), Of(8)]), -1) == Found(Of(5), -2)
  {
  }

  /** Fuel is spent on a child that does not match as well as on the one
      that does; running out mid-scan returns the node being scanned. */
  lemma SearchFuelExamples()
    ensures Dfs(x => x >= 8, Tree(10, [Of(5), Of(8)]), 3) == Found(Of(8), 1)
    ensures Dfs(x => x >= 8, Tree(10, [Of(5), Of(8)]), 1) == Found(Tree(10, [Of(5), Of(8)]), 0)
  {
  }
}
