/**
 * The tree distance (Sources/TreeDistance/TreeDistance.swift, `treeDistance`): number both
 * trees in postorder, find their leftmost leaves and keyroots, fill the forest table of
 * every keyroot pair (first tree's keyroots outside, second's inside, both ascending), and
 * read the result for the two roots from the subtree memo.
 *
 * Every forest table finds the memo entries it reuses already filled: an entry for nodes
 * `k` and `l` is written by the table of the keyroots `KeyOf(k)` and `KeyOf(l)` (the last
 * nodes sharing their leftmost leaves), and a table only reuses pairs whose keyroots come
 * before its own in that order.
 */
module TreeDistances {
  import opened Wrappers
  import opened Trees
  import opened ReversibleMaps
  import opened Preprocessing
  import opened Keyroots
  import opened Trails
  import opened ForestDistances
  import opened CellFacts

  /** The distance problem for two trees under a label cost function. */
  function ProblemOf<L>(t1: Tree<L>, t2: Tree<L>, cost: CostFn<L>): (p: Problem<L>)
    ensures Valid(p.x1) && Valid(p.x2) && |p.x1.nodes| == Size(t1) && |p.x2.nodes| == Size(t2)
  {
    IndexedOfValid(t1);
    IndexedOfValid(t2);
    Problem(IndexedOf(t1), IndexedOf(t2), cost)
  }

  /** The trail between the two whole trees: the memo entry of their roots. */
  function DistanceTrail<L>(t1: Tree<L>, t2: Tree<L>, cost: CostFn<L>): Trail<L>
  {
    TreeCell(ProblemOf(t1, t2, cost), Size(t1) - 1, Size(t2) - 1)
  }

  /** The distance of any two trees is finite. */
  lemma {:induction false} DistanceIsFinite<L>(t1: Tree<L>, t2: Tree<L>, cost: CostFn<L>)
    ensures TotalCost(DistanceTrail(t1, t2, cost)).Fin?
  {
    DistanceFinite(ProblemOf(t1, t2, cost));
  }

  /** The trail between two whole trees is well formed, so its edit script can be read off it. */
  lemma {:induction false} DistanceWellFormed<L>(t1: Tree<L>, t2: Tree<L>, cost: CostFn<L>)
    ensures WellFormed(DistanceTrail(t1, t2, cost))
  {
    var p := ProblemOf(t1, t2, cost);
    IndexedOfLinks(t2);
    RootCell(p);
    CellWellFormed(p, 0, |p.x1.nodes|, 0, |p.x2.nodes|);
  }

  /** A tree is at distance zero from itself when renaming a label into itself is free. */
  lemma {:induction false} DistanceToSelf<L(!new)>(t: Tree<L>, cost: CostFn<L>)
    requires FreeSelfRename(cost)
    ensures TotalCost(DistanceTrail(t, t, cost)) == Fin(0)
  {
    SelfDistanceZero(ProblemOf(t, t, cost));
  }

  /**
   * Trees of the same shape are at most the sum of their renames apart: the cost of renaming
   * each node of the first into the node at the same postorder index of the second.
   */
  lemma {:induction false} SimilarDistance<L>(t1: Tree<L>, t2: Tree<L>, cost: CostFn<L>)
    requires Similar(t1, t2)
    ensures Size(t1) == Size(t2)
    ensures TotalCost(DistanceTrail(t1, t2, cost)).Fin?
    ensures TotalCost(DistanceTrail(t1, t2, cost)).n <= RenameSum(ProblemOf(t1, t2, cost), 0, Size(t1))
  {
    var p := ProblemOf(t1, t2, cost);
    SimilarLayout(t1, t2);
    assert Alike(p);
    SubtreeBound(p, Size(t1) - 1);
  }

  /** Trees that differ only in their identities are at distance zero when renaming a label into itself is free. */
  lemma {:induction false} CopyDistanceZero<L(!new)>(t1: Tree<L>, t2: Tree<L>, cost: CostFn<L>)
    requires Copy(t1, t2) && FreeSelfRename(cost)
    ensures TotalCost(DistanceTrail(t1, t2, cost)) == Fin(0)
  {
    CopyLayout(t1, t2);
    SimilarDistance(t1, t2, cost);
    RenameSumZero(ProblemOf(t1, t2, cost), 0, Size(t1));
  }

  /** The steps of the trail between two trees are priced by the cost function and rename nodes of `t1` into nodes of `t2`. */
  lemma {:induction false} DistanceSourced<L>(t1: Tree<L>, t2: Tree<L>, cost: CostFn<L>)
    ensures Sourced(ProblemOf(t1, t2, cost), DistanceTrail(t1, t2, cost))
  {
    var p := ProblemOf(t1, t2, cost);
    RootCell(p);
    CellSourced(p, 0, |p.x1.nodes|, 0, |p.x2.nodes|);
  }

  // ---------------------------------------------------------------------------
  // The order of the keyroot pairs.

  /** The last node in postorder that shares the leftmost leaf of node `k`. */
  function KeyScan(lm: seq<nat>, k: nat, u: nat): (r: nat)
    requires k <= u < |lm|
    ensures k <= r <= u && lm[r] == lm[k]
    ensures forall v :: r < v <= u ==> lm[v] != lm[k]
    decreases u - k
  {
    if lm[u] == lm[k] then u else KeyScan(lm, k, u - 1)
  }

  ghost function KeyOf<L>(x: Indexed<L>, k: nat): nat
    requires k < |x.lmld|
  {
    KeyScan(x.lmld, k, |x.lmld| - 1)
  }

  /**
   * Inside the subtree of keyroot `kr`, the keyroot of node `k` is `kr` itself when `k`
   * shares its leftmost leaf, and an earlier node otherwise.
   */
  lemma {:induction false} KeyOfInside<L>(x: Indexed<L>, kr: nat, k: nat)
    requires Valid(x) && Top(x.lmld, kr) && x.lmld[kr] <= k <= kr
    ensures Top(x.lmld, KeyOf(x, k)) && k <= KeyOf(x, k) <= kr
    ensures KeyOf(x, k) == kr <==> x.lmld[k] == x.lmld[kr]
  {
  }

  /** The postorder indices of nodes, in the same order. */
  function Indices<L(==)>(ns: seq<Tree<L>>, dict: map<Tree<L>, nat>): (r: seq<nat>)
    requires forall i :: 0 <= i < |ns| ==> ns[i] in dict
    ensures |r| == |ns| && forall i :: 0 <= i < |ns| ==> r[i] == dict[ns[i]]
  {
    if ns == [] then [] else [dict[ns[0]]] + Indices(ns[1..], dict)
  }

  /** `ks` lists every keyroot of the tree, in strictly increasing order. */
  ghost predicate KeyList<L>(x: Indexed<L>, ks: seq<nat>)
  {
    && (forall i :: 0 <= i < |ks| ==> Top(x.lmld, ks[i]))
    && (forall u: nat :: Top(x.lmld, u) ==> u in ks)
    && (forall i, j :: 0 <= i < j < |ks| ==> ks[i] < ks[j])
  }

  /** The place of keyroot `u` in the list. */
  function Pos(ks: seq<nat>, u: nat): (i: nat)
    requires u in ks
    ensures i < |ks| && ks[i] == u
  {
    if ks[0] == u then 0 else 1 + Pos(ks[1..], u)
  }

  /**
   * The memo entry for nodes `k` and `l` is filled once the keyroot loops have passed the
   * pair `(KeyOf(k), KeyOf(l))`: outer position `a`, inner position `b`.
   */
  ghost predicate Done<L>(p: Problem<L>, ks1: seq<nat>, ks2: seq<nat>, a: nat, b: nat, k: nat, l: nat)
    requires Valid(p.x1) && Valid(p.x2) && KeyList(p.x1, ks1) && KeyList(p.x2, ks2)
    requires k < |p.x1.nodes| && l < |p.x2.nodes|
  {
    KeyScanTop(p.x1, k);
    KeyScanTop(p.x2, l);
    var c1, c2 := Pos(ks1, KeyOf(p.x1, k)), Pos(ks2, KeyOf(p.x2, l));
    c1 < a || (c1 == a && c2 < b)
  }

  lemma {:induction false} KeyScanTop<L>(x: Indexed<L>, k: nat)
    requires Valid(x) && k < |x.lmld|
    ensures Top(x.lmld, KeyOf(x, k))
  {
  }

  /** The memo holds exactly the entries of the pairs done so far. */
  ghost predicate MemoAt<L>(p: Problem<L>, ks1: seq<nat>, ks2: seq<nat>, a: nat, b: nat,
                            memo: array2<Option<Trail<L>>>)
    reads memo
    requires Valid(p.x1) && Valid(p.x2) && KeyList(p.x1, ks1) && KeyList(p.x2, ks2)
  {
    memo.Length0 == |p.x2.nodes| && memo.Length1 == |p.x1.nodes|
    && forall l, k :: 0 <= l < memo.Length0 && 0 <= k < memo.Length1 ==>
      memo[l, k] == if Done(p, ks1, ks2, a, b, k, l) then Some(TreeCell(p, k, l)) else None
  }

  /** Before the table of keyroots `ks1[a]` and `ks2[b]`, every entry it reuses is there. */
  lemma {:induction false} ReadyAt<L>(p: Problem<L>, ks1: seq<nat>, ks2: seq<nat>, a: nat, b: nat, memo: array2<Option<Trail<L>>>)
    requires Valid(p.x1) && Valid(p.x2) && KeyList(p.x1, ks1) && KeyList(p.x2, ks2)
    requires a < |ks1| && b < |ks2| && MemoAt(p, ks1, ks2, a, b, memo)
    ensures MemoSound(p, memo) && Ready(p, memo, ks1[a], ks2[b])
  {
    var kr1, kr2 := ks1[a], ks2[b];
    forall k, l | p.x1.lmld[kr1] <= k <= kr1 && p.x2.lmld[kr2] <= l <= kr2 && !Spans(p, p.x1.lmld[kr1], k, p.x2.lmld[kr2], l)
      ensures memo[l, k].Some?
    {
      KeyOfInside(p.x1, kr1, k);
      KeyOfInside(p.x2, kr2, l);
      var c1, c2 := Pos(ks1, KeyOf(p.x1, k)), Pos(ks2, KeyOf(p.x2, l));
      assert c1 <= a && (c1 == a ==> c2 < b);
      assert Done(p, ks1, ks2, a, b, k, l);
    }
  }

  /** The table of keyroots `ks1[a]` and `ks2[b]` writes exactly the pairs whose keyroots they are. */
  lemma {:induction false} WrittenIsNext<L>(p: Problem<L>, ks1: seq<nat>, ks2: seq<nat>, a: nat, b: nat, k: nat, l: nat)
    requires Valid(p.x1) && Valid(p.x2) && KeyList(p.x1, ks1) && KeyList(p.x2, ks2)
    requires a < |ks1| && b < |ks2| && k < |p.x1.nodes| && l < |p.x2.nodes|
    ensures Done(p, ks1, ks2, a, b + 1, k, l) <==> Done(p, ks1, ks2, a, b, k, l) || Written(p, ks1[a], ks2[b], k, l)
  {
    var kr1, kr2 := ks1[a], ks2[b];
    KeyScanTop(p.x1, k);
    KeyScanTop(p.x2, l);
    var c1, c2 := Pos(ks1, KeyOf(p.x1, k)), Pos(ks2, KeyOf(p.x2, l));
    if Written(p, kr1, kr2, k, l) {
      KeyOfInside(p.x1, kr1, k);
      KeyOfInside(p.x2, kr2, l);
      assert c1 == a && c2 == b;
    }
    if c1 == a && c2 == b {
      assert KeyOf(p.x1, k) == kr1 && KeyOf(p.x2, l) == kr2;
    }
  }

  /** Moving to the next inner position: the table just filled adds its pairs. */
  lemma {:induction false} MemoStep<L>(p: Problem<L>, ks1: seq<nat>, ks2: seq<nat>, a: nat, b: nat, memo: array2<Option<Trail<L>>>)
    requires Valid(p.x1) && Valid(p.x2) && KeyList(p.x1, ks1) && KeyList(p.x2, ks2)
    requires a < |ks1| && b < |ks2|
    requires memo.Length0 == |p.x2.nodes| && memo.Length1 == |p.x1.nodes|
    requires forall l, k :: 0 <= l < memo.Length0 && 0 <= k < memo.Length1 ==>
      memo[l, k] == if Written(p, ks1[a], ks2[b], k, l) || Done(p, ks1, ks2, a, b, k, l)
                    then Some(TreeCell(p, k, l)) else None
    ensures MemoAt(p, ks1, ks2, a, b + 1, memo)
  {
    forall l, k | 0 <= l < memo.Length0 && 0 <= k < memo.Length1
      ensures memo[l, k] == if Done(p, ks1, ks2, a, b + 1, k, l) then Some(TreeCell(p, k, l)) else None
    {
      WrittenIsNext(p, ks1, ks2, a, b, k, l);
    }
  }

  /** The inner loop over: the outer position moves on. */
  lemma {:induction false} MemoRow<L>(p: Problem<L>, ks1: seq<nat>, ks2: seq<nat>, a: nat, memo: array2<Option<Trail<L>>>)
    requires Valid(p.x1) && Valid(p.x2) && KeyList(p.x1, ks1) && KeyList(p.x2, ks2)
    requires MemoAt(p, ks1, ks2, a, |ks2|, memo)
    ensures MemoAt(p, ks1, ks2, a + 1, 0, memo)
  {
    forall l, k | 0 <= l < memo.Length0 && 0 <= k < memo.Length1
      ensures Done(p, ks1, ks2, a, |ks2|, k, l) == Done(p, ks1, ks2, a + 1, 0, k, l)
    {
      KeyScanTop(p.x1, k);
      KeyScanTop(p.x2, l);
    }
  }

  /** After every pair, the memo entry of the two roots (indices `r1` and `r2`) is there. */
  lemma {:induction false} MemoDone<L>(p: Problem<L>, ks1: seq<nat>, ks2: seq<nat>, memo: array2<Option<Trail<L>>>, r1: nat, r2: nat)
    requires Valid(p.x1) && Valid(p.x2) && KeyList(p.x1, ks1) && KeyList(p.x2, ks2)
    requires MemoAt(p, ks1, ks2, |ks1|, 0, memo)
    requires r1 == |p.x1.nodes| - 1 && r2 == |p.x2.nodes| - 1
    ensures memo[r2, r1] == Some(TreeCell(p, r1, r2))
  {
    KeyScanTop(p.x1, r1);
    KeyScanTop(p.x2, r2);
    assert Done(p, ks1, ks2, |ks1|, 0, r1, r2);
  }

  /** Nothing is done before the loops start. */
  lemma {:induction false} MemoStart<L>(p: Problem<L>, ks1: seq<nat>, ks2: seq<nat>, memo: array2<Option<Trail<L>>>)
    requires Valid(p.x1) && Valid(p.x2) && KeyList(p.x1, ks1) && KeyList(p.x2, ks2)
    requires memo.Length0 == |p.x2.nodes| && memo.Length1 == |p.x1.nodes|
    requires forall l, k :: 0 <= l < memo.Length0 && 0 <= k < memo.Length1 ==> memo[l, k].None?
    ensures MemoAt(p, ks1, ks2, 0, 0, memo)
  {
    forall l, k | 0 <= l < memo.Length0 && 0 <= k < memo.Length1
      ensures !Done(p, ks1, ks2, 0, 0, k, l)
    {
      KeyScanTop(p.x1, k);
      KeyScanTop(p.x2, l);
    }
  }

  /** The keyroot list of a tree lists its keyroots' indices, every one, in increasing order. */
  lemma {:induction false} KeyrootIndices<L>(t: Tree<L>, post: ReversibleMap<Tree<L>, nat>, r: seq<Tree<L>>)
    requires Numbers(post, t)
    requires forall i :: 0 <= i < |r| ==> r[i] in post.dict && Top(Lmld(t), post.dict[r[i]])
    requires forall x: nat :: Top(Lmld(t), x) ==> Post(t)[x] in r
    requires forall i, j :: 0 <= i < j < |r| ==> post.dict[r[i]] < post.dict[r[j]]
    ensures KeyList(IndexedOf(t), Indices(r, post.dict))
  {
    var ks := Indices(r, post.dict);
    assert IndexedOf(t).lmld == Lmld(t);
    forall i | 0 <= i < |ks| ensures Top(Lmld(t), ks[i]) {
      assert ks[i] == post.dict[r[i]];
    }
    forall u: nat | Top(Lmld(t), u) ensures u in ks {
      var i :| 0 <= i < |r| && r[i] == Post(t)[u];
      assert ks[i] == u;
    }
    forall i, j | 0 <= i < j < |ks| ensures ks[i] < ks[j] {
      assert ks[i] == post.dict[r[i]] && ks[j] == post.dict[r[j]];
    }
  }

  /** The postorder map and the leftmost-leaf list of a tree agree with its postorder view. */
  lemma {:induction false} PreparedAgrees<L>(t: Tree<L>, post: ReversibleMap<Tree<L>, nat>, lmld: seq<Tree<L>>)
    requires Numbers(post, t)
    requires |lmld| == Size(t) && forall k :: 0 <= k < Size(t) ==> lmld[k] == Post(t)[Lmld(t)[k]]
    ensures Agrees(IndexedOf(t), post, lmld)
  {
    IndexedOfValid(t);
    forall k | 0 <= k < Size(t) ensures Knows(IndexedOf(t), post, lmld, k) {
      assert post.dict[Post(t)[k]] == k;
      assert post.dict[Post(t)[Lmld(t)[k]]] == Lmld(t)[k];
    }
  }

  // ---------------------------------------------------------------------------
  // The driver.

  /**
   * Fills the subtree memo for every keyroot pair and returns the trail of the two roots
   * and its total cost: the distance, which is finite.
   */
  method Distance<L(==)>(t1: Tree<L>, t2: Tree<L>, cost: CostFn<L>) returns (d: Cost, trail: Trail<L>)
    requires DistinctIds(t1) && DistinctIds(t2)
    ensures trail == DistanceTrail(t1, t2, cost)
    ensures d == TotalCost(trail) && d.Fin?
  {
    var x1, post1, lmld1, keyRoots1, ks1 := Prepare(t1);
    var x2, post2, lmld2, keyRoots2, ks2 := Prepare(t2);
    var p := Problem(x1, x2, cost);

    var tree1MaxIndex := post1.Get(t1);
    var tree2MaxIndex := post2.Get(t2);
    var memo := new Option<Trail<L>>[tree2MaxIndex + 1, tree1MaxIndex + 1]((_, _) => None);
    MemoStart(p, ks1, ks2, memo);
    FillMemo(p, post1, post2, lmld1, lmld2, keyRoots1, keyRoots2, memo, ks1, ks2);
    MemoDone(p, ks1, ks2, memo, tree1MaxIndex, tree2MaxIndex);

    trail := memo[tree2MaxIndex, tree1MaxIndex].value;
    d := TotalCost(trail);
    DistanceIsFinite(t1, t2, cost);
  }

  /**
   * The preparation of one tree: its postorder map, its leftmost-leaf list and its keyroots,
   * which agree with the tree's postorder view; `ks` numbers the keyroots.
   */
  method Prepare<L(==)>(t: Tree<L>) returns (x: Indexed<L>, post: ReversibleMap<Tree<L>, nat>, lmld: seq<Tree<L>>,
                                              keyRoots: seq<Tree<L>>, ghost ks: seq<nat>)
    requires DistinctIds(t)
    ensures x == IndexedOf(t) && |x.nodes| == Size(t)
    ensures fresh(post) && Agrees(x, post, lmld)
    ensures post.Has(t) && post.Get(t) == Size(t) - 1
    ensures forall i :: 0 <= i < |keyRoots| ==> keyRoots[i] in post.dict
    ensures ks == Indices(keyRoots, post.dict) && KeyList(x, ks)
  {
    x := IndexedOf(t);
    post := PostorderIdentifiers(t);
    lmld := LeftmostLeafDescendants(t, post);
    PreparedAgrees(t, post, lmld);
    keyRoots, ks := KeyrootsOf(t, post);
    assert post.dict[Post(t)[Size(t) - 1]] == Size(t) - 1;
  }

  /** The keyroots of a numbered tree, with their numbers. */
  method KeyrootsOf<L(==)>(t: Tree<L>, post: ReversibleMap<Tree<L>, nat>) returns (keyRoots: seq<Tree<L>>, ghost ks: seq<nat>)
    requires Numbers(post, t)
    ensures forall i :: 0 <= i < |keyRoots| ==> keyRoots[i] in post.dict
    ensures ks == Indices(keyRoots, post.dict) && KeyList(IndexedOf(t), ks)
  {
    keyRoots := ComputeKeyroots(t, post);
    KeyrootIndices(t, post, keyRoots);
    ks := Indices(keyRoots, post.dict);
  }

  /** The keyroot loops: the forest table of every keyroot pair, in order. */
  method FillMemo<L(==)>(p: Problem<L>, post1: ReversibleMap<Tree<L>, nat>, post2: ReversibleMap<Tree<L>, nat>,
                         lmld1: seq<Tree<L>>, lmld2: seq<Tree<L>>, keyRoots1: seq<Tree<L>>, keyRoots2: seq<Tree<L>>,
                         memo: array2<Option<Trail<L>>>, ghost ks1: seq<nat>, ghost ks2: seq<nat>)
    requires Agrees(p.x1, post1, lmld1) && Agrees(p.x2, post2, lmld2)
    requires forall i :: 0 <= i < |keyRoots1| ==> keyRoots1[i] in post1.dict
    requires forall i :: 0 <= i < |keyRoots2| ==> keyRoots2[i] in post2.dict
    requires ks1 == Indices(keyRoots1, post1.dict) && ks2 == Indices(keyRoots2, post2.dict)
    requires KeyList(p.x1, ks1) && KeyList(p.x2, ks2)
    requires MemoAt(p, ks1, ks2, 0, 0, memo)
    modifies memo
    ensures MemoAt(p, ks1, ks2, |ks1|, 0, memo)
  {
    for a := 0 to |keyRoots1|
      invariant MemoAt(p, ks1, ks2, a, 0, memo)
    {
      for b := 0 to |keyRoots2|
        invariant MemoAt(p, ks1, ks2, a, b, memo)
      {
        ReadyAt(p, ks1, ks2, a, b, memo);
        assert post1.Get(keyRoots1[a]) == ks1[a] && post2.Get(keyRoots2[b]) == ks2[b];
        ForestDistance(p, post1, post2, lmld1, lmld2, memo, keyRoots1[a], keyRoots2[b]);
        MemoStep(p, ks1, ks2, a, b, memo);
      }
      MemoRow(p, ks1, ks2, a, memo);
    }
  }
}
