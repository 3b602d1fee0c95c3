/**
 * Keyroots (Sources/TreeDistance/TreeDistance.swift, `keyroots`): the walk appends, for
 * every leaf, the first node of the chain of first children that ends at that leaf, and the
 * list is then sorted by postorder number. The nodes it finds are exactly the nodes that
 * no later node (in postorder) shares a leftmost leaf with: the root and every child that
 * is not a first child.
 */
module Keyroots {
  import opened Wrappers
  import opened Trees
  import opened ReversibleMaps
  import opened Preprocessing

  /** No node after `x` in postorder has the same leftmost leaf as `x`. */
  ghost predicate Top(lm: seq<nat>, x: nat)
  {
    x < |lm| && forall u :: x < u < |lm| ==> lm[u] != lm[x]
  }

  /**
   * The postorder indices the walk appends for the subtree `t` whose block starts at `b`;
   * `head` is the index of the first node of the chain of first children leading to `t`.
   */
  function KeyrootWalk<L>(t: Tree<L>, b: nat, head: Option<nat>): seq<nat>
    decreases t, 1
  {
    if t.children == [] then [if head.Some? then head.value else b]
    else KeyrootWalkF(t.children, b, Some(if head.Some? then head.value else b + Size(t) - 1))
  }

  /** The walk over a forest: only the first tree continues the pending chain. */
  function KeyrootWalkF<L>(cs: seq<Tree<L>>, b: nat, head: Option<nat>): seq<nat>
    decreases cs, 0
  {
    if cs == [] then []
    else KeyrootWalkF(cs[..|cs| - 1], b, head)
         + KeyrootWalk(cs[|cs| - 1], b + SizeF(cs[..|cs| - 1]), if |cs| == 1 then head else None)
  }

  ghost predicate NoDup<T>(s: seq<T>)
  {
    forall i, j :: 0 <= i < j < |s| ==> s[i] != s[j]
  }

  // ---------------------------------------------------------------------------
  // What the walk finds

  /**
   * `y` is the pending chain head, or a node of the block starting at `b` (with leftmost
   * leaves `lm`) that is last with its leftmost leaf and, with a pending chain, is not on
   * the chain of first children from the block's start.
   */
  ghost predicate Found(lm: seq<nat>, b: nat, head: Option<nat>, y: nat)
  {
    (head.Some? && y == head.value)
    || (b <= y < b + |lm| && Top(lm, y - b) && (head.None? || lm[y - b] != 0))
  }

  /** The indices appended for `t` are exactly those `Found` in its block. */
  lemma {:induction false} WalkMembers<L>(t: Tree<L>, b: nat, head: Option<nat>, y: nat)
    ensures y in KeyrootWalk(t, b, head) <==> Found(Lmld(t), b, head, y)
    decreases t, 2
  {
    if t.children == [] {
      assert Lmld(t) == [0];
    } else {
      WalkMembersNode(t, b, head, y);
    }
  }

  lemma {:induction false} WalkMembersNode<L>(t: Tree<L>, b: nat, head: Option<nat>, y: nat)
    requires t.children != []
    ensures y in KeyrootWalk(t, b, head) <==> Found(Lmld(t), b, head, y)
    decreases t, 1
  {
    var cs := t.children;
    var h := Some(if head.Some? then head.value else b + Size(t) - 1);
    SizeFPrefix(cs, 0);
    WalkMembersF(cs, b, h, y);
    FoundBelowRoot(LmldF(cs), b, head, y);
    FoundRootStep(KeyrootWalkF(cs, b, h), KeyrootWalk(t, b, head), LmldF(cs), Lmld(t), b, head, y);
  }

  lemma {:induction false} FoundRootStep(wc: seq<nat>, w: seq<nat>, a: seq<nat>, lm: seq<nat>, b: nat, head: Option<nat>, y: nat)
    requires w == wc && lm == a + [0]
    requires y in wc <==> Found(a, b, Some(if head.Some? then head.value else b + |a|), y)
    requires Found(lm, b, head, y) <==> Found(a, b, Some(if head.Some? then head.value else b + |a|), y)
    ensures y in w <==> Found(lm, b, head, y)
  {
  }

  lemma {:induction false} WalkMembersF<L>(cs: seq<Tree<L>>, b: nat, head: Option<nat>, y: nat)
    ensures y in KeyrootWalkF(cs, b, head) <==> cs != [] && Found(LmldF(cs), b, head, y)
    decreases cs, 3
  {
    if |cs| == 1 {
      WalkMembersSingle(cs, b, head, y);
    } else if cs != [] {
      WalkMembersSnoc(cs, b, head, y);
    }
  }

  lemma {:induction false} WalkMembersSingle<L>(cs: seq<Tree<L>>, b: nat, head: Option<nat>, y: nat)
    requires |cs| == 1
    ensures y in KeyrootWalkF(cs, b, head) <==> Found(LmldF(cs), b, head, y)
    decreases cs, 0
  {
    var last := cs[0];
    assert cs[..0] == [] && LmldF(cs[..0]) == [] && SizeF(cs[..0]) == 0;
    assert LmldF(cs) == Lmld(last);
    assert KeyrootWalkF(cs, b, head) == KeyrootWalk(last, b, head);
    WalkMembers(last, b, head, y);
  }

  lemma {:induction false} WalkMembersSnoc<L>(cs: seq<Tree<L>>, b: nat, head: Option<nat>, y: nat)
    requires |cs| > 1
    ensures y in KeyrootWalkF(cs, b, head) <==> Found(LmldF(cs), b, head, y)
    decreases cs, 0
  {
    var init, last := cs[..|cs| - 1], cs[|cs| - 1];
    var s := SizeF(init);
    WalkMembers(last, b + s, None, y);
    WalkMembersF(init, b, head, y);
    SizeFPrefix(init, |init| - 1);
    FoundSplit(KeyrootWalkF(init, b, head), KeyrootWalk(last, b + s, None), KeyrootWalkF(cs, b, head),
               LmldF(init), Lmld(last), LmldF(cs), b, head, y);
  }

  /** Membership in the walks over two adjacent blocks, from membership in each. */
  lemma {:induction false} FoundSplit(wa: seq<nat>, wc: seq<nat>, w: seq<nat>, a: seq<nat>, c: seq<nat>, lm: seq<nat>,
                   b: nat, head: Option<nat>, y: nat)
    requires w == wa + wc && lm == a + Shift(c, |a|)
    requires |a| >= 1 && forall i :: 0 <= i < |a| ==> a[i] <= i
    requires y in wa <==> Found(a, b, head, y)
    requires y in wc <==> Found(c, b + |a|, None, y)
    ensures y in w <==> Found(lm, b, head, y)
  {
    FoundConcat(a, c, b, head, y);
  }

  /** Appending a root (leftmost leaf 0) to a block: the root heads the pending chain. */
  lemma {:induction false} FoundBelowRoot(a: seq<nat>, b: nat, head: Option<nat>, y: nat)
    requires |a| >= 1
    ensures Found(a + [0], b, head, y) <==> Found(a, b, Some(if head.Some? then head.value else b + |a|), y)
  {
    if b <= y < b + |a| {
      TopBeforeRoot(a, y - b);
      assert (a + [0])[y - b] == a[y - b];
    } else if y == b + |a| {
      assert (a + [0])[y - b] == 0;
    }
  }

  /** A block followed by a second block: the pending chain stays with the first. */
  lemma {:induction false} FoundConcat(a: seq<nat>, c: seq<nat>, b: nat, head: Option<nat>, y: nat)
    requires |a| >= 1 && forall i :: 0 <= i < |a| ==> a[i] <= i
    ensures Found(a + Shift(c, |a|), b, head, y) <==> Found(a, b, head, y) || Found(c, b + |a|, None, y)
  {
    var w := a + Shift(c, |a|);
    if b <= y < b + |a| {
      TopInPrefix(a, c, y - b);
      assert w[y - b] == a[y - b];
    } else if b + |a| <= y < b + |w| {
      TopInSuffix(a, c, y - b);
    }
  }

  /** Below an appended root (leftmost leaf 0), a node is last with its leftmost leaf unless that leaf is 0. */
  lemma {:induction false} TopBeforeRoot(a: seq<nat>, x: nat)
    requires x < |a|
    ensures Top(a + [0], x) <==> Top(a, x) && a[x] != 0
  {
    assert (a + [0])[|a|] == 0;
    assert forall u :: x < u < |a| ==> (a + [0])[u] == a[u];
  }

  lemma {:induction false} TopInPrefix(a: seq<nat>, c: seq<nat>, x: nat)
    requires x < |a| && forall i :: 0 <= i < |a| ==> a[i] <= i
    ensures Top(a + Shift(c, |a|), x) <==> Top(a, x)
  {
    var w := a + Shift(c, |a|);
    assert w[x] == a[x] <= x;
    assert forall u :: |a| <= u < |w| ==> w[u] >= |a|;
    assert forall u :: x < u < |a| ==> w[u] == a[u];
  }

  lemma {:induction false} TopInSuffix(a: seq<nat>, c: seq<nat>, x: nat)
    requires |a| <= x < |a| + |c|
    ensures Top(a + Shift(c, |a|), x) <==> Top(c, x - |a|)
    ensures (a + Shift(c, |a|))[x] == c[x - |a|] + |a|
  {
    var w := a + Shift(c, |a|);
    assert forall u :: |a| <= u < |w| ==> w[u] == c[u - |a|] + |a|;
    if !Top(c, x - |a|) {
      var v :| x - |a| < v < |c| && c[v] == c[x - |a|];
      assert w[v + |a|] == w[x];
    }
  }

  /** The walk appends one index per leaf. */
  lemma {:induction false} WalkLength<L>(t: Tree<L>, b: nat, head: Option<nat>)
    ensures |KeyrootWalk(t, b, head)| == Leaves(t)
    decreases t, 1
  {
    if t.children != [] {
      WalkLengthF(t.children, b, Some(if head.Some? then head.value else b + Size(t) - 1));
    }
  }

  lemma {:induction false} WalkLengthF<L>(cs: seq<Tree<L>>, b: nat, head: Option<nat>)
    ensures |KeyrootWalkF(cs, b, head)| == LeavesF(cs)
    decreases cs, 0
  {
    if cs != [] {
      var init := cs[..|cs| - 1];
      WalkLengthF(init, b, head);
      WalkLength(cs[|cs| - 1], b + SizeF(init), if |cs| == 1 then head else None);
    }
  }

  /** No index is appended twice, provided the pending chain head lies after the block. */
  lemma {:induction false} WalkNoDup<L>(t: Tree<L>, b: nat, head: Option<nat>)
    requires head.None? || head.value >= b + Size(t) - 1
    ensures NoDup(KeyrootWalk(t, b, head))
    decreases t, 1
  {
    if t.children != [] {
      WalkNoDupF(t.children, b, Some(if head.Some? then head.value else b + Size(t) - 1));
    }
  }

  lemma {:induction false} WalkNoDupF<L>(cs: seq<Tree<L>>, b: nat, head: Option<nat>)
    requires head.None? || head.value >= b + SizeF(cs)
    ensures NoDup(KeyrootWalkF(cs, b, head))
    decreases cs, 0
  {
    if cs != [] {
      var init, last := cs[..|cs| - 1], cs[|cs| - 1];
      var s := SizeF(init);
      var hl := if |cs| == 1 then head else None;
      assert SizeF(cs) == s + Size(last);
      WalkNoDupF(init, b, head);
      WalkNoDup(last, b + s, hl);
      var p, q := KeyrootWalkF(init, b, head), KeyrootWalk(last, b + s, hl);
      if |cs| == 1 {
        assert p == [];
      } else {
        forall i, j | 0 <= i < |p| && 0 <= j < |q|
          ensures p[i] != q[j]
        {
          WalkMembersF(init, b, head, p[i]);
          WalkMembers(last, b + s, hl, q[j]);
        }
      }
      NoDupConcat(p, q);
    }
  }

  lemma {:induction false} NoDupConcat<T>(p: seq<T>, q: seq<T>)
    requires NoDup(p) && NoDup(q)
    requires forall i, j :: 0 <= i < |p| && 0 <= j < |q| ==> p[i] != q[j]
    ensures NoDup(p + q)
  {
    forall i, j | 0 <= i < j < |p + q|
      ensures (p + q)[i] != (p + q)[j]
    {
      if j < |p| {
      } else if i < |p| {
        assert (p + q)[i] == p[i] && (p + q)[j] == q[j - |p|];
      } else {
        assert (p + q)[i] == q[i - |p|] && (p + q)[j] == q[j - |p|];
      }
    }
  }

  /** The whole walk finds exactly the nodes that are last with their leftmost leaf. */
  lemma {:induction false} KeyrootsAreTops<L>(t: Tree<L>, y: nat)
    ensures y in KeyrootWalk(t, 0, None) <==> Top(Lmld(t), y)
  {
    WalkMembers(t, 0, None, y);
    assert Found(Lmld(t), 0, None, y) == Top(Lmld(t), y);
  }

  // ---------------------------------------------------------------------------
  // The walk as the source performs it, on nodes

  /** Every index of `xs` is below `n`. */
  ghost predicate Below(xs: seq<nat>, n: nat)
  {
    forall i :: 0 <= i < |xs| ==> xs[i] < n
  }

  /** The nodes at the postorder indices `xs`. */
  function NodesAt<L>(t: Tree<L>, xs: seq<nat>): (r: seq<Tree<L>>)
    requires Below(xs, Size(t))
    ensures |r| == |xs|
  {
    seq(|xs|, i requires 0 <= i < |xs| => Post(t)[xs[i]])
  }

  lemma {:induction false} NodesAtAppend<L>(t: Tree<L>, p: seq<nat>, q: seq<nat>)
    requires Below(p, Size(t)) && Below(q, Size(t))
    ensures Below(p + q, Size(t))
    ensures NodesAt(t, p + q) == NodesAt(t, p) + NodesAt(t, q)
  {
  }

  /**
   * Walks the subtree `cur` at postorder index `k`, carrying the chain of first-child
   * ancestors whose head is at index `hd`, and appends to `acc` one node per leaf.
   */
  method CollectKeyroots<L>(t: Tree<L>, cur: Tree<L>, chain: seq<Tree<L>>, acc: seq<Tree<L>>,
                            ghost k: nat, ghost hd: Option<nat>) returns (r: seq<Tree<L>>)
    requires k < Size(t) && Post(t)[k] == cur && Size(cur) <= k + 1
    requires (chain == []) == hd.None?
    requires hd.Some? ==> k < hd.value < Size(t) && Post(t)[hd.value] == chain[0]
    ensures Below(KeyrootWalk(cur, k + 1 - Size(cur), hd), Size(t))
    ensures r == acc + NodesAt(t, KeyrootWalk(cur, k + 1 - Size(cur), hd))
    decreases cur, 1
  {
    if cur.children == [] {
      r := if chain == [] then acc + [cur] else acc + [chain[0]];
    } else {
      ghost var h := Some(if hd.Some? then hd.value else k);
      r := CollectChildren(t, cur, chain, acc, k, h);
      assert KeyrootWalk(cur, k + 1 - Size(cur), hd) == KeyrootWalkF(cur.children, k + 1 - Size(cur), h);
    }
  }

  /** The loop over the children of `cur`: the first child continues the chain, the others start afresh. */
  method CollectChildren<L>(t: Tree<L>, cur: Tree<L>, chain: seq<Tree<L>>, acc: seq<Tree<L>>,
                            ghost k: nat, ghost h: Option<nat>) returns (r: seq<Tree<L>>)
    requires k < Size(t) && Post(t)[k] == cur && Size(cur) <= k + 1
    requires h.Some? && k <= h.value < Size(t) && Post(t)[h.value] == if chain == [] then cur else chain[0]
    ensures Below(KeyrootWalkF(cur.children, k + 1 - Size(cur), h), Size(t))
    ensures r == acc + NodesAt(t, KeyrootWalkF(cur.children, k + 1 - Size(cur), h))
    decreases cur, 0
  {
    var cs := cur.children;
    ghost var b := k + 1 - Size(cur);
    r := acc;
    ghost var done := b;
    for i := 0 to |cs|
      invariant done == b + SizeF(cs[..i])
      invariant Below(KeyrootWalkF(cs[..i], b, h), Size(t))
      invariant r == acc + NodesAt(t, KeyrootWalkF(cs[..i], b, h))
    {
      ghost var ci := ChildBlock(t, k, cur, i, b, done);
      var ch := if i == 0 then chain + [cur] else [];
      ghost var hi := if i == 0 then h else None;
      assert (ch == []) == hi.None? && (hi.Some? ==> ci < hi.value < Size(t) && Post(t)[hi.value] == ch[0]) by {
        if i == 0 {
          assert ch[0] == if chain == [] then cur else chain[0];
        }
      }
      ghost var before := r;
      r := CollectKeyroots(t, cs[i], ch, r, ci, hi);
      CollectStep(t, cs, i, b, h, hi, ci + 1 - Size(cs[i]), acc, before, r);
      done := ci + 1;
    }
    assert cs[..|cs|] == cs;
  }

  /** One child's walk extends the walk over the children before it. */
  lemma {:induction false} CollectStep<L>(t: Tree<L>, cs: seq<Tree<L>>, i: nat, b: nat, h: Option<nat>, hi: Option<nat>, done: nat,
                       acc: seq<Tree<L>>, before: seq<Tree<L>>, after: seq<Tree<L>>)
    requires i < |cs| && done == b + SizeF(cs[..i]) && hi == if i == 0 then h else None
    requires Below(KeyrootWalkF(cs[..i], b, h), Size(t))
    requires Below(KeyrootWalk(cs[i], done, hi), Size(t))
    requires before == acc + NodesAt(t, KeyrootWalkF(cs[..i], b, h))
    requires after == before + NodesAt(t, KeyrootWalk(cs[i], done, hi))
    ensures Below(KeyrootWalkF(cs[..i + 1], b, h), Size(t))
    ensures after == acc + NodesAt(t, KeyrootWalkF(cs[..i + 1], b, h))
  {
    WalkStep(cs, i, b, h, hi, done);
    AppendNodes(t, KeyrootWalkF(cs[..i], b, h), KeyrootWalk(cs[i], done, hi), KeyrootWalkF(cs[..i + 1], b, h),
                acc, before, after);
  }

  lemma {:induction false} WalkStep<L>(cs: seq<Tree<L>>, i: nat, b: nat, h: Option<nat>, hi: Option<nat>, done: nat)
    requires i < |cs| && done == b + SizeF(cs[..i]) && hi == if i == 0 then h else None
    ensures KeyrootWalkF(cs[..i + 1], b, h) == KeyrootWalkF(cs[..i], b, h) + KeyrootWalk(cs[i], done, hi)
  {
    assert cs[..i + 1][..i] == cs[..i];
  }

  lemma {:induction false} AppendNodes<L>(t: Tree<L>, p: seq<nat>, q: seq<nat>, w: seq<nat>, acc: seq<Tree<L>>,
                       before: seq<Tree<L>>, after: seq<Tree<L>>)
    requires w == p + q && Below(p, Size(t)) && Below(q, Size(t))
    requires before == acc + NodesAt(t, p) && after == before + NodesAt(t, q)
    ensures Below(w, Size(t)) && after == acc + NodesAt(t, w)
  {
    NodesAtAppend(t, p, q);
  }

  // ---------------------------------------------------------------------------
  // Sorting by postorder number

  /** The postorder numbers of `s` under `post` never decrease. */
  ghost predicate SortedBy<L>(s: seq<Tree<L>>, post: map<Tree<L>, nat>)
  {
    (forall i :: 0 <= i < |s| ==> s[i] in post)
    && forall i, j :: 0 <= i < j < |s| ==> post[s[i]] <= post[s[j]]
  }

  /** Sorts `nodes` by their postorder numbers (insertion sort). */
  method SortByPostorder<L(==)>(nodes: seq<Tree<L>>, post: ReversibleMap<Tree<L>, nat>) returns (r: seq<Tree<L>>)
    requires forall i :: 0 <= i < |nodes| ==> nodes[i] in post.dict
    ensures multiset(r) == multiset(nodes)
    ensures SortedBy(r, post.dict)
  {
    r := [];
    for i := 0 to |nodes|
      invariant multiset(r) == multiset(nodes[..i])
      invariant SortedBy(r, post.dict)
    {
      r := InsertByPostorder(r, nodes[i], post);
      assert nodes[..i + 1] == nodes[..i] + [nodes[i]];
    }
    assert nodes[..|nodes|] == nodes;
  }

  /** Inserts `x` into the sorted `s` after every node numbered at most `x`. */
  method InsertByPostorder<L(==)>(s: seq<Tree<L>>, x: Tree<L>, post: ReversibleMap<Tree<L>, nat>) returns (r: seq<Tree<L>>)
    requires SortedBy(s, post.dict) && x in post.dict
    ensures multiset(r) == multiset(s) + multiset{x}
    ensures SortedBy(r, post.dict)
  {
    var p := 0;
    while p < |s| && post.Get(s[p]) <= post.Get(x)
      invariant p <= |s|
      invariant forall i :: 0 <= i < p ==> post.dict[s[i]] <= post.dict[x]
    {
      p := p + 1;
    }
    r := s[..p] + [x] + s[p..];
    InsertKeepsSorted(s, p, x, post.dict, r);
  }

  lemma {:induction false} InsertKeepsSorted<L>(s: seq<Tree<L>>, p: nat, x: Tree<L>, post: map<Tree<L>, nat>, r: seq<Tree<L>>)
    requires SortedBy(s, post) && x in post && p <= |s|
    requires forall i :: 0 <= i < p ==> post[s[i]] <= post[x]
    requires p < |s| ==> post[x] < post[s[p]]
    requires r == s[..p] + [x] + s[p..]
    ensures multiset(r) == multiset(s) + multiset{x}
    ensures SortedBy(r, post)
  {
    assert s == s[..p] + s[p..];
    InsertShape(s, p, x, r);
    InsertOrdered(s, p, x, post, r);
  }

  lemma {:induction false} InsertShape<T>(s: seq<T>, p: nat, x: T, r: seq<T>)
    requires p <= |s| && r == s[..p] + [x] + s[p..]
    ensures |r| == |s| + 1 && r[p] == x
    ensures forall i :: 0 <= i < p ==> r[i] == s[i]
    ensures forall i :: p < i < |r| ==> r[i] == s[i - 1]
  {
  }

  lemma {:induction false} InsertOrdered<L>(s: seq<Tree<L>>, p: nat, x: Tree<L>, post: map<Tree<L>, nat>, r: seq<Tree<L>>)
    requires SortedBy(s, post) && x in post && p <= |s|
    requires forall i :: 0 <= i < p ==> post[s[i]] <= post[x]
    requires p < |s| ==> post[x] < post[s[p]]
    requires |r| == |s| + 1 && r[p] == x
    requires forall i :: 0 <= i < p ==> r[i] == s[i]
    requires forall i :: p < i < |r| ==> r[i] == s[i - 1]
    ensures SortedBy(r, post)
  {
    forall i | 0 <= i < |r|
      ensures r[i] in post
    {
      if i > p {
        assert r[i] == s[i - 1];
      }
    }
    forall i, j | 0 <= i < j < |r|
      ensures post[r[i]] <= post[r[j]]
    {
      if j > p && i == p {
        assert post[x] < post[s[p]] <= post[s[j - 1]];
      }
    }
  }

  lemma {:induction false} NoDupCount<T>(s: seq<T>, x: T)
    requires NoDup(s)
    ensures multiset(s)[x] <= 1
  {
    if s != [] {
      var init := s[..|s| - 1];
      assert s == init + [s[|s| - 1]];
      assert NoDup(init);
      NoDupCount(init, x);
      if x == s[|s| - 1] {
        assert x !in init;
      }
    }
  }

  lemma {:induction false} PermutationKeepsNoDup<T>(a: seq<T>, b: seq<T>)
    requires multiset(a) == multiset(b) && NoDup(a)
    ensures NoDup(b)
  {
    forall i, j | 0 <= i < j < |b|
      ensures b[i] != b[j]
    {
      if b[i] == b[j] {
        assert b == b[..j] + b[j..];
        assert b[i] in b[..j] && b[j] in b[j..];
        assert multiset(b)[b[i]] == multiset(b[..j])[b[i]] + multiset(b[j..])[b[i]];
        NoDupCount(a, b[i]);
        assert false;
      }
    }
  }

  /**
   * The keyroots: one node per leaf, exactly the nodes no later node shares a leftmost
   * leaf with (so the root is among them), in strictly increasing postorder.
   */
  method ComputeKeyroots<L(==)>(t: Tree<L>, post: ReversibleMap<Tree<L>, nat>) returns (r: seq<Tree<L>>)
    requires Numbers(post, t)
    ensures |r| == Leaves(t)
    ensures forall i :: 0 <= i < |r| ==> r[i] in post.dict && Top(Lmld(t), post.dict[r[i]])
    ensures forall x: nat :: Top(Lmld(t), x) ==> Post(t)[x] in r
    ensures forall i, j :: 0 <= i < j < |r| ==> post.dict[r[i]] < post.dict[r[j]]
    ensures |r| > 0 && r[|r| - 1] == t
  {
    ghost var w := KeyrootWalk(t, 0, None);
    var found := CollectKeyroots(t, t, [], [], Size(t) - 1, None);
    WalkFacts(t, post, w, found);
    r := SortByPostorder(found, post);
    SortedKeyroots(t, post.dict, post.inverse, w, found, r);
    assert Top(Lmld(t), Size(t) - 1) && Post(t)[Size(t) - 1] == t;
    RootLast(t, post.dict, r);
  }

  /** The walk's nodes are distinct, numbered by the walk's indices, one per leaf. */
  lemma {:induction false} WalkFacts<L>(t: Tree<L>, post: ReversibleMap<Tree<L>, nat>, w: seq<nat>, found: seq<Tree<L>>)
    requires Numbers(post, t) && w == KeyrootWalk(t, 0, None) && Below(w, Size(t))
    requires found == NodesAt(t, w)
    ensures |found| == Leaves(t) && NoDup(w)
    ensures forall i :: 0 <= i < |found| ==> found[i] in post.dict && post.dict[found[i]] == w[i]
  {
    assert forall i :: 0 <= i < |found| ==> found[i] == Post(t)[w[i]];
    WalkLength(t, 0, None);
    WalkNoDup(t, 0, None);
  }

  lemma {:induction false} SortedKeyroots<L>(t: Tree<L>, dict: map<Tree<L>, nat>, inverse: map<nat, Tree<L>>, w: seq<nat>,
                          found: seq<Tree<L>>, r: seq<Tree<L>>)
    requires IsConverse(dict, inverse) && w == KeyrootWalk(t, 0, None) && NoDup(w) && |found| == |w|
    requires forall i :: 0 <= i < |found| ==> found[i] in dict && dict[found[i]] == w[i]
    requires multiset(r) == multiset(found) && SortedBy(r, dict)
    ensures |r| == |found|
    ensures forall i :: 0 <= i < |r| ==> r[i] in dict && Top(Lmld(t), dict[r[i]])
    ensures forall x: nat :: Top(Lmld(t), x) && x < Size(t) && Post(t)[x] in dict && dict[Post(t)[x]] == x ==> Post(t)[x] in r
    ensures forall i, j :: 0 <= i < j < |r| ==> dict[r[i]] < dict[r[j]]
  {
    assert |r| == |multiset(r)| == |multiset(found)| == |found|;
    assert NoDup(found) by {
      forall i, j | 0 <= i < j < |found|
        ensures found[i] != found[j]
      {
        assert dict[found[i]] == w[i] && dict[found[j]] == w[j];
      }
    }
    PermutationKeepsNoDup(found, r);
    forall i | 0 <= i < |r|
      ensures Top(Lmld(t), dict[r[i]])
    {
      assert r[i] in multiset(found);
      var j :| 0 <= j < |found| && found[j] == r[i];
      KeyrootsAreTops(t, w[j]);
    }
    forall x: nat | Top(Lmld(t), x) && x < Size(t) && Post(t)[x] in dict && dict[Post(t)[x]] == x
      ensures Post(t)[x] in r
    {
      KeyrootsAreTops(t, x);
      var j :| 0 <= j < |w| && w[j] == x;
      assert found[j] == inverse[x] == Post(t)[x];
      assert found[j] in multiset(r);
    }
    forall i, j | 0 <= i < j < |r|
      ensures dict[r[i]] < dict[r[j]]
    {
      assert r[i] != r[j];
      assert inverse[dict[r[i]]] == r[i] && inverse[dict[r[j]]] == r[j];
    }
  }

  /** The root is a keyroot, and comes last in a list sorted by postorder number. */
  lemma {:induction false} RootLast<L>(t: Tree<L>, dict: map<Tree<L>, nat>, r: seq<Tree<L>>)
    requires t in dict && dict[t] == Size(t) - 1 && t in r
    requires forall i :: 0 <= i < |r| ==> r[i] in dict && Top(Lmld(t), dict[r[i]])
    requires forall i, j :: 0 <= i < j < |r| ==> dict[r[i]] < dict[r[j]]
    ensures |r| > 0 && r[|r| - 1] == t
  {
    var i :| 0 <= i < |r| && r[i] == t;
    forall j | 0 <= j < |r| - 1
      ensures dict[r[j]] < Size(t) - 1
    {
      assert dict[r[j]] < dict[r[|r| - 1]] < Size(t);
    }
  }
}
