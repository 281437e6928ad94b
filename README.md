# Shrink trees of ts-quickcheck, in Dafny

This project models `src/Tree.ts`, the shrink tree at the heart of the
property-based testing library. A `Tree<A>` holds a generated value (`top`)
and an ordered list of simpler candidates (`forest`), each itself a tree.
The model covers the three groups of operations on it:

- the algebra: `Tree.of`, `tree`/`tree$`, `map` and `chain` (monadic bind),
  together with the debugging snapshot `force`;
- the combinators that build a tree of records from trees of fields:
  `left_first_pair` (nested `chain`, biased towards the first field), `dist`
  (fair distribution), `dist_array` and `fair_pair`;
- `left_first_search`, the greedy leftmost descent with a fuel budget that
  the test runner uses to shrink a failing value.

Files, one module each:

- `utils.dfy` (`Utils`): `Option`, `Flatten` (the library's `Utils.flatten`)
  with the lemmas locating each block in the flattened sequence, `MaxOf`.
- `tree.dfy` (`Trees`): the `Tree` and `StrictTree` datatypes, `Of`, `Chain`,
  `Map`, `Force`, tree sizes, and the monad and functor laws.
- `dist.dfy` (`Distribution`): `Dist`, `ShrinkAll`/`ShrinkOne` (the source's
  `keys.map(shrink_one)`), `DistArray`, `LeftFirstPair`, `FairPair`.
- `search.dfy` (`Search`): the specification `Dfs`/`Scan` of the inner
  `dfs`, a fuel-free reference (`FirstMatch`, `Greedy`, `Cost`), the method
  `DepthFirst` with the `for` loop of `dfs`, and `LeftFirstSearch`.

Modelling choices:

- Trees are finite values: `datatype Tree<A> = Tree(top, forest: seq<Tree<A>>)`.
  The library's forest is a thunk recomputed on each access; on a finite
  tree this is not observable. `tree(top, forest)` and `tree$(top, forest)`
  are both the datatype constructor.
- `Map` is defined as the library defines it, `chain` into leaves; its shape
  properties are proved from that definition.
- A record passed to `dist` is modelled positionally: the keys are
  `0 .. n-1` in enumeration order, so `Dist` takes a `seq<Tree<A>>` and
  builds a `Tree<seq<A>>`. `dist_array` is then `dist` itself: turning the
  positional record back into an array of the same length is the identity.
  `Dist` terminates because each recursive call replaces one tree by one of
  its own children, which lowers the total node count (`ShrinkOneSmaller`).
- `fair_pair` builds `{a: this, b: tb}`, a record whose two fields have
  different types, which a `seq<A>` cannot hold. `FairPair` is therefore
  written as the two-key distribution directly, and `FairPairIsDist` proves
  it equal to `Dist` over the two trees injected into a sum type `Field`.
- `left_first_search`'s optional result (`undefined`) is an `Option`. Its
  default fuel of -1 is the method's default parameter value, as is
  `force`'s default depth of -1 for `Force`.
- Fuel is spent before the child is tested (src/Tree.ts:43). One might
  expect `tree(10, [of(5), of(8)])` searched with a predicate true everywhere
  and fuel -1 to return `of(5)` with fuel -1; the code returns `of(5)` with
  fuel -2 (`SearchTakesLeftmost`).

## Model

| member | source | states |
|---|---|---|
| `Trees.Of` | src/Tree.ts:10-12 | `Tree.of`: the value with an empty forest (its properties: `OfIsLeaf`) |
| `Trees.Chain` | src/Tree.ts:22-25 | `chain`: top of `f(top)`, then the re-chained children followed by the children of `f(top)` (its properties: `ChainForestOrder` and the monad laws) |
| `Trees.Map` | src/Tree.ts:19-21 | `map`, defined as chaining into leaves (its properties: `MapUnfold`, `MapPointwise`, `PointwiseIsMap`, the functor laws) |
| `Trees.Force` | src/Tree.ts:75-80 | `force(depth = -1)`: the top, and no children at depth 0, else the children forced at `depth - 1` (its properties: `ForceUnbounded`, `ForceBounded`) |
| `Utils.Flatten` | src/Tree.ts:63-65 | `Utils.flatten` as used by `dist`: the blocks concatenated in order (its properties: `FlattenLength`, `FlattenAt`, `FlattenCover`) |
| `Utils.FlattenAt` | src/Tree.ts:63-65 | element `j` of block `k` sits in the flattened sequence right after all elements of the earlier blocks |
| `Utils.FlattenCover` | src/Tree.ts:63-65 | every position of the flattened sequence falls inside some block `k`, between the end of block `k-1` and the end of block `k` |
| `Distribution.Dist` | src/Tree.ts:58-66 | `dist`: the record of the keys' tops, over the flattened per-key shrinks (its properties: `DistRoot`, `DistChildAt`, `DistChildShrinksOneKey`, `DistBlocksDisjoint`, `DistRecordLength`) |
| `Distribution.ShrinkAll` | src/Tree.ts:64 | `keys.map(shrink_one)`: one block of children per key, in key order |
| `Distribution.ShrinkOne` | src/Tree.ts:60-62 | `shrink_one(k)`: for each child of key `k`'s tree, `dist` with key `k` replaced by that child |
| `Distribution.DistArray` | src/Tree.ts:69-72 | `dist_array`: `dist` over the positional record, read back as an array of the same length (its property: `DistArrayLength`) |
| `Distribution.LeftFirstPair` | src/Tree.ts:27-29 | `left_first_pair`: the nested `chain` into leaves of pairs (its properties: `LeftFirstPairUnfold`, `LeftFirstPairFreezesFirst`) |
| `Distribution.FairPair` | src/Tree.ts:30-32 | `fair_pair`: the two-key distribution of `{a, b}` read back as pairs (its properties: `FairPairIsDist`, `FairPairUnfold`) |
| `Distribution.FairPairUnfold` | src/Tree.ts:30-32 | one level of `fair_pair`: root `(ta.top, tb.top)`, first-component shrinks then second-component shrinks, each child again a fair pair with the other component unchanged |
| `Search.Dfs` | src/Tree.ts:37-49 | `dfs(tree, fuel)`: the loop over the forest from child 0 |
| `Search.Scan` | src/Tree.ts:39-48 | one step of that loop: stop at the end of the forest or at fuel 0, otherwise spend one unit and descend into the child if it satisfies `p`, else go on to the next child |
| `Trees.OfIsLeaf` | src/Tree.ts:10-12 | `of(a)` holds `a` and has no children; it is one node, mapping it gives a leaf of `f(a)`, and forcing it gives a childless snapshot at any depth |
| `Trees.ChainForestOrder` | src/Tree.ts:22-25 | the top of `chain(f)` is `f(top).top`; its forest is the re-chained children of the tree, in order, followed by the children of `f(top)`, so its length is the sum of the two |
| `Trees.ChainOfLeft` | src/Tree.ts:22-25 | chaining a leaf through `f` gives exactly `f` of its value |
| `Trees.ChainOfRight` | src/Tree.ts:22-25 | chaining into leaves rebuilds the tree unchanged, at every depth |
| `Trees.ChainAssociative` | src/Tree.ts:22-25 | chaining through `f` then `g` equals chaining through `a => f(a).chain(g)`: the forest concatenation order composes |
| `Trees.ChainCongruence` | src/Tree.ts:22-25 | chain depends only on the values its continuation returns |
| `Trees.MapUnfold` | src/Tree.ts:19-21 | `map(f)` puts `f(top)` at the root and the mapped children, same number and order, below it |
| `Trees.MapPointwise` | src/Tree.ts:19-21 | at every depth, `map(f)` keeps the shape of the tree and holds `f` of the original value |
| `Trees.PointwiseIsMap` | src/Tree.ts:19-21 | conversely, any tree of the same shape holding `f` of every value is `map(f)` |
| `Trees.MapIdentity` | src/Tree.ts:19-21 | functor identity law: mapping the identity gives the same tree |
| `Trees.MapCompose` | src/Tree.ts:19-21 | functor composition law: `map(f).map(g)` equals `map(x => g(f(x)))` |
| `Trees.MapSize` | src/Tree.ts:19-21 | mapping keeps the number of nodes |
| `Trees.MapEveryNode` | src/Tree.ts:19-21 | if every value `f` yields satisfies `P`, every node of `map(f)` at any depth satisfies `P` |
| `Trees.ShrinkOneSmaller` | src/Tree.ts:60-62 | replacing key `k`'s tree by one of its children strictly lowers the total node count, so the recursion of `dist` terminates |
| `Trees.ForceUnbounded` | src/Tree.ts:75-79 | a negative depth never reaches 0: `force` evaluates the whole tree |
| `Trees.ForceBounded` | src/Tree.ts:75-79 | with depth at least 0, `force` keeps the top, the snapshot is at most `depth` levels deep, and depth 0 gives an empty forest |
| `Distribution.DistRoot` | src/Tree.ts:58-66 | the top of `dist` is the record of every key's top, and its forest has as many children as all keys' forests together |
| `Distribution.DistNoKeys` | src/Tree.ts:58-66 | `dist` over no keys is a leaf holding the empty record |
| `Distribution.DistChildAt` | src/Tree.ts:58-66 | shrink `j` of key `k` is the child at position `Offset(k) + j`, inside key `k`'s block: the distribution with only key `k` replaced by that shrink, so its record is the root's with field `k` set to the shrink's value |
| `Distribution.DistChildShrinksOneKey` | src/Tree.ts:58-66 | every child of `dist` lies in some key's block and shrinks that key by one of its children, the other keys unchanged: children of all keys are siblings in key order |
| `Distribution.DistBlocksDisjoint` | src/Tree.ts:58-66 | the key blocks do not overlap: a child position determines its key and the shrink of that key, so each child is in exactly one block |
| `Distribution.DistRecordLength` | src/Tree.ts:58-66 | every node of `dist`, at any depth, holds a record with one field per key |
| `Distribution.DistArrayLength` | src/Tree.ts:69-72 | every node of `dist_array(trees)`, at any depth, holds an array of length `trees.length` |
| `Distribution.LeftFirstPairUnfold` | src/Tree.ts:27-29 | the first children of `left_first_pair` shrink the first component and are again left-first pairs; the rest shrink only the second component, mapped with the first held at its current value |
| `Distribution.LeftFirstPairFreezesFirst` | src/Tree.ts:27-29 | below a second-component shrink of `left_first_pair`, every node keeps the first component fixed: the bias of the nested `chain` |
| `Distribution.FairPairIsDist` | src/Tree.ts:30-32 | `fair_pair` is `dist` over `{a, b}` projected to pairs: packing every pair of `FairPair(ta, tb)` into a two-field record gives exactly `Dist` of the two trees |
| `Distribution.PairsAgreeAtRoot` | src/Tree.ts:27-32 | both pairings have root `(ta.top, tb.top)` and the same `|ta.forest| + |tb.forest|` immediate children, first-component shrinks first, each changing one component |
| `Distribution.FairPairExample` | src/Tree.ts:30-32 | pairing a tree for 3 (shrinks 0, 1, 2) with a tree for "ab" (shrinks "a", "") gives five children, each varying one side |
| `Search.FirstMatch` | src/Tree.ts:39-47 | the index of the first child whose top satisfies `p`, or the length when none does: every child before it fails `p` |
| `Search.GreedyPathSatisfies` | src/Tree.ts:37-49 | from a satisfying root, every node on the leftmost greedy path satisfies `p`, and the path ends at a node none of whose children satisfies `p` |
| `Search.DfsFollowsGreedy` | src/Tree.ts:37-49 | with negative fuel, or fuel covering the whole greedy path, `dfs` returns the end of the greedy path and has spent exactly one unit per inspected child (the matching ones included); with less fuel it spends all of it and stops at a node on that path |
| `Search.ScanFollowsGreedy` | src/Tree.ts:39-47 | the loop's part of that accounting: after `i` non-matching children, `Cost - i` units remain to be spent |
| `Search.DfsResult` | src/Tree.ts:34-55 | from a satisfying root, the result satisfies `p`; unless fuel reached 0 none of its children satisfies `p`; negative fuel never reaches 0; non-negative fuel ends in `[0, fuel]`, and `fuel - result` is the number of children inspected |
| `Search.DepthFirst` | src/Tree.ts:37-49 | the `for` loop of `dfs` (stop at fuel 0, decrement, descend on the first match) returns what `Dfs` specifies |
| `Search.LeftFirstSearch` | src/Tree.ts:34-55 | no result exactly when the root fails `p`; otherwise the node and fuel that `dfs` returns |
| `Search.SearchLeaf` | src/Tree.ts:37-49 | searching a leaf returns it with the fuel untouched |
| `Search.SearchTakesLeftmost` | src/Tree.ts:37-49 | with a predicate true everywhere, the search descends into the first child, spending one unit of fuel |
| `Search.SearchFuelExamples` | src/Tree.ts:39-47 | a non-matching child costs fuel as well as the matching one; fuel reaching 0 mid-scan returns the node being scanned |

## Left out

- Laziness of `forest` (src/Tree.ts:9, 17, 24, 63-64): forests are finite sequences, so infinite or cyclic generator trees, and the recomputation of a forest on each access, are not modelled; `force(-1)` on an infinite tree would not terminate.
- `Utils.ts` is not part of this model: `Utils.pair` is a Dafny tuple, `Utils.dict(keys, ...)` is the positional record `Tops`, and `Utils.flatten` is `Utils.Flatten`.
- JavaScript record mechanics (`Object.keys` ordering, object spread `{...trees, [k]: t}`, `Array.from({...t, length})`) are replaced by positional keys `0 .. n-1`.
- Records with string keys and fields of different types: `dist` is modelled over one field type; `fair_pair`, whose two fields differ in type, is related to it through the sum type `Field`.
- The predicate `p` of `left_first_search` is a pure Dafny function; a side-effecting predicate is not modelled.
- The generators that build trees and the runner's shrink loop that calls the search are outside this file.
- `fuel` and `depth` are JavaScript numbers (src/Tree.ts:34, 40, 43, 75, 78); the model uses unbounded integers. A fractional, NaN or infinite budget never equals 0 in the source, so such a search is unbounded and can end with a negative fuel from a non-negative start (fuel 2.5 on a three-level chain ends at -0.5); `DfsResult`'s bound `[0, fuel]` is stated for integer budgets only.
- Exceptions thrown by the continuation `f` of `map`/`chain` or by the predicate `p` are not modelled: Dafny functions are total.
