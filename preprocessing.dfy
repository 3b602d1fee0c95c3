/**
 * The three preprocessing passes of the Zhang–Shasha computation: postorder numbering,
 * leftmost leaf descendants and keyroots. Each pass is a recursive walk over the tree,
 * proved against the postorder layout of module Trees.
 */
module Preprocessing {
  import opened Wrappers
  import opened Trees
  import opened ReversibleMaps

  /** The (id, index) pairs of `nodes`, numbered from `b`. */
  function Numbered<L(==)>(nodes: seq<Tree<L>>, b: nat): (r: seq<(Tree<L>, nat)>)
    ensures |r| == |nodes|
  {
    seq(|nodes|, o requires 0 <= o < |nodes| => (nodes[o], b + o))
  }

  /** `m` maps the id of the node at postorder index `k` to `k`, and back, and nothing else. */
  ghost predicate Numbers<L>(m: ReversibleMap<Tree<L>, nat>, t: Tree<L>)
    reads m
  {
    IsConverse(m.dict, m.inverse) && |m.dict| == Size(t)
    && forall k :: 0 <= k < Size(t) ==> Post(t)[k] in m.dict && m.dict[Post(t)[k]] == k
  }

  /**
   * Postorder numbering: every node gets the number of nodes visited before it when
   * children are visited left to right before their parent.
   */
  method PostorderIdentifiers<L(==)>(t: Tree<L>) returns (m: ReversibleMap<Tree<L>, nat>)
    requires DistinctIds(t)
    ensures fresh(m)
    ensures Numbers(m, t)
  {
    m := new ReversibleMap();
    var next := Number(t, m, 0);
    var pairs := Numbered(Post(t), 0);
    assert (m.dict, m.inverse) == PutPairs(map[], map[], pairs);
    PutPairsBuildsConverse(pairs);
    forall k | 0 <= k < Size(t)
      ensures Post(t)[k] in m.dict && m.dict[Post(t)[k]] == k
    {
      assert pairs[k] == (Post(t)[k], k);
    }
  }

  /** Numbers the subtree `cur` from `next` on, putting each node into `m` after its children. */
  method Number<L(==)>(cur: Tree<L>, m: ReversibleMap<Tree<L>, nat>, next: nat) returns (next': nat)
    modifies m
    ensures next' == next + Size(cur)
    ensures (m.dict, m.inverse) == PutPairs(old(m.dict), old(m.inverse), Numbered(Post(cur), next))
    decreases cur
  {
    var cs := cur.children;
    next' := next;
    for i := 0 to |cs|
      invariant next' == next + SizeF(cs[..i])
      invariant (m.dict, m.inverse) == PutPairs(old(m.dict), old(m.inverse), Numbered(PostF(cs[..i]), next))
    {
      ghost var mid, n0 := (m.dict, m.inverse), next';
      next' := Number(cs[i], m, next');
      NumberChildStep(cs, i, next, n0);
      PutPairsThenMore(old(m.dict), old(m.inverse), Numbered(PostF(cs[..i]), next),
        Numbered(Post(cs[i]), n0), Numbered(PostF(cs[..i + 1]), next), mid, (m.dict, m.inverse));
    }
    assert cs[..|cs|] == cs;
    ghost var mid := (m.dict, m.inverse);
    m.Put(cur, next');
    NumberRootStep(old(m.dict), old(m.inverse), cur, next, mid, (m.dict, m.inverse));
    next' := next' + 1;
  }

  lemma {:induction false} PutPairsThenMore<K, V>(d: map<K, V>, v: map<V, K>, p: seq<(K, V)>, q: seq<(K, V)>, w: seq<(K, V)>,
                               mid: (map<K, V>, map<V, K>), after: (map<K, V>, map<V, K>))
    requires mid == PutPairs(d, v, p) && after == PutPairs(mid.0, mid.1, q) && w == p + q
    ensures after == PutPairs(d, v, w)
  {
    PutPairsAppend(d, v, p, q);
  }

  lemma {:induction false} NumberChildStep<L>(cs: seq<Tree<L>>, i: nat, next: nat, n0: nat)
    requires i < |cs| && n0 == next + SizeF(cs[..i])
    ensures SizeF(cs[..i + 1]) == SizeF(cs[..i]) + Size(cs[i])
    ensures Numbered(PostF(cs[..i + 1]), next) == Numbered(PostF(cs[..i]), next) + Numbered(Post(cs[i]), n0)
  {
    SizeFPrefix(cs, i);
    assert cs[..i + 1][..i] == cs[..i];
    assert PostF(cs[..i + 1]) == PostF(cs[..i]) + Post(cs[i]);
    NumberedAppend(PostF(cs[..i]), Post(cs[i]), next);
  }

  lemma {:induction false} NumberRootStep<L>(d: map<Tree<L>, nat>, v: map<nat, Tree<L>>, cur: Tree<L>, next: nat,
                          mid: (map<Tree<L>, nat>, map<nat, Tree<L>>), after: (map<Tree<L>, nat>, map<nat, Tree<L>>))
    requires mid == PutPairs(d, v, Numbered(PostF(cur.children), next))
    requires after == PutPair(mid.0, mid.1, cur, next + SizeF(cur.children))
    ensures after == PutPairs(d, v, Numbered(Post(cur), next))
  {
    var p := Numbered(Post(cur), next);
    NumberedAppend(PostF(cur.children), [cur], next);
    assert p[..|p| - 1] == Numbered(PostF(cur.children), next);
    assert p[|p| - 1] == (cur, next + SizeF(cur.children));
  }

  lemma {:induction false} NumberedAppend<L>(a: seq<Tree<L>>, c: seq<Tree<L>>, b: nat)
    ensures Numbered(a + c, b) == Numbered(a, b) + Numbered(c, b + |a|)
  {
  }

  /** Postorder numbering of distinct ids gives a one-to-one list of pairs. */
  lemma {:induction false} NumberedOneToOne<L>(t: Tree<L>)
    requires DistinctIds(t)
    ensures OneToOne(Numbered(Post(t), 0))
  {
  }

  // ---------------------------------------------------------------------------
  // Leftmost leaf descendants

  /** `marks` lists the postorder indices of the nodes of `chain`, all leftmost-leaf `b`. */
  ghost predicate ChainAt<L>(t: Tree<L>, post: ReversibleMap<Tree<L>, nat>, chain: seq<Tree<L>>, marks: seq<nat>, b: nat)
    reads post
  {
    |marks| == |chain|
    && forall i :: 0 <= i < |chain| ==>
      chain[i] in post.dict && post.dict[chain[i]] == marks[i] && marks[i] < Size(t) && Lmld(t)[marks[i]] == b
  }

  /**
   * Entry `k` of the result is the leftmost leaf descendant of the node numbered `k`:
   * a walk passes every first-child chain of ancestors down to the leaf that ends it.
   */
  method LeftmostLeafDescendants<L(==)>(t: Tree<L>, post: ReversibleMap<Tree<L>, nat>) returns (r: seq<Tree<L>>)
    requires Numbers(post, t)
    ensures |r| == Size(t)
    ensures forall k :: 0 <= k < Size(t) ==> r[k] == Post(t)[Lmld(t)[k]]
  {
    assert post.dict[Post(t)[Size(t) - 1]] == Size(t) - 1;
    var result := new Option<Tree<L>>[post.Get(t) + 1](_ => None);
    Walk(t, t, [], result, post, Size(t) - 1, []);
    r := [];
    for k := 0 to result.Length
      invariant |r| == k
      invariant forall x :: 0 <= x < k ==> r[x] == Post(t)[Lmld(t)[x]]
    {
      r := r + [result[k].value];
    }
  }

  /**
   * Walks the subtree `cur`, the node at postorder index `k` of `t`, whose subtree occupies
   * indices `[k + 1 - Size(cur), k]`; every node of `chain` is an ancestor whose leftmost
   * leaf is the leftmost leaf of `cur`.
   */
  method Walk<L(==)>(t: Tree<L>, cur: Tree<L>, chain: seq<Tree<L>>, result: array<Option<Tree<L>>>,
                 post: ReversibleMap<Tree<L>, nat>, ghost k: nat, ghost marks: seq<nat>)
    requires Numbers(post, t) && result.Length == Size(t)
    requires k < Size(t) && Post(t)[k] == cur && Size(cur) <= k + 1
    requires ChainAt(t, post, chain, marks, k + 1 - Size(cur))
    modifies result
    ensures forall x :: 0 <= x < result.Length ==>
      result[x] == if k + 1 - Size(cur) <= x <= k || x in marks
                   then Some(Post(t)[Lmld(t)[x]]) else old(result[x])
    decreases cur
  {
    var cs := cur.children;
    if cs == [] {
      MarkLeaf(t, cur, chain, result, post, k, marks);
    } else {
      ghost var b := k + 1 - Size(cur);
      assert post.dict[cur] == k && Lmld(t)[k] == b by {
        SubtreeLayout(t, k);
      }
      ChainExtend(t, post, chain, marks, b, cur, k);
      ghost var done := b;
      for i := 0 to |cs|
        invariant done == b + SizeF(cs[..i])
        invariant forall x :: 0 <= x < result.Length ==>
          result[x] == if b <= x < done || (i > 0 && x in marks + [k])
                       then Some(Post(t)[Lmld(t)[x]]) else old(result[x])
      {
        var ch := if i == 0 then chain + [cur] else [];
        ghost var mi := if i == 0 then marks + [k] else [];
        ghost var ci := ChildBlock(t, k, cur, i, b, done);
        if i == 0 {
          assert cs[..0] == [];
        }
        Walk(t, cs[i], ch, result, post, ci, mi);
        done := ci + 1;
      }
      assert cs[..|cs|] == cs;
    }
  }

  lemma {:induction false} ChainExtend<L>(t: Tree<L>, post: ReversibleMap<Tree<L>, nat>, chain: seq<Tree<L>>, marks: seq<nat>, b: nat,
                       cur: Tree<L>, top: nat)
    requires ChainAt(t, post, chain, marks, b)
    requires cur in post.dict && post.dict[cur] == top && top < Size(t) && Lmld(t)[top] == b
    ensures ChainAt(t, post, chain + [cur], marks + [top], b)
  {
  }

  /** A leaf is its own leftmost leaf, and the leftmost leaf of every ancestor in `chain`. */
  method MarkLeaf<L(==)>(t: Tree<L>, cur: Tree<L>, chain: seq<Tree<L>>, result: array<Option<Tree<L>>>,
                     post: ReversibleMap<Tree<L>, nat>, ghost k: nat, ghost marks: seq<nat>)
    requires Numbers(post, t) && result.Length == Size(t) && cur.children == []
    requires k < Size(t) && Post(t)[k] == cur
    requires ChainAt(t, post, chain, marks, k)
    modifies result
    ensures forall x :: 0 <= x < result.Length ==>
      result[x] == if x == k || x in marks
                   then Some(Post(t)[Lmld(t)[x]]) else old(result[x])
  {
    assert post.dict[cur] == k && Lmld(t)[k] == k by {
      LmldOfLeaf(t, k);
    }
    result[post.Get(cur)] := Some(cur);
    for i := 0 to |chain|
      invariant forall x :: 0 <= x < result.Length ==>
        result[x] == if x == k || x in marks[..i]
                     then Some(Post(t)[Lmld(t)[x]]) else old(result[x])
    {
      assert marks[..i + 1] == marks[..i] + [marks[i]];
      result[post.Get(chain[i])] := Some(cur);
    }
    assert marks[..|marks|] == marks;
  }
}
