/**
 * Ordered labelled trees as the distance computation reads them, and their postorder
 * layout: postorder numbering, subtree sizes, leftmost-leaf descendants and parents.
 *
 * A node is `Node(id, lbl, children)`; `id` is the node's identity (the Swift code uses
 * object identity), `lbl` its label. Postorder index `k` of tree `t` denotes the node
 * `Post(t)[k]`, whose subtree occupies the index range `[k + 1 - Size(Post(t)[k]), k]`.
 */
module Trees {
  import opened Wrappers
  import opened Operations

  datatype Tree<L> = Node(id: nat, lbl: L, children: seq<Tree<L>>)

  /** A label's transformation cost: the label, the edit, and the other label involved. */
  type CostFn<!L> = (L, TreeOperation, Option<L>) -> nat

  /** A node's cost delegates to its label's cost, passing the other node's label. */
  function TransformationCost<L>(node: Tree<L>, op: TreeOperation, other: Option<Tree<L>>, cost: CostFn<L>): nat
  {
    cost(node.lbl, op, if other.Some? then Some(other.value.lbl) else None)
  }

  /** Number of nodes. */
  function Size<L>(t: Tree<L>): (n: nat)
    ensures n >= 1
  {
    1 + SizeF(t.children)
  }

  function SizeF<L>(cs: seq<Tree<L>>): nat
  {
    if cs == [] then 0 else SizeF(cs[..|cs| - 1]) + Size(cs[|cs| - 1])
  }

  /** The nodes in postorder: every child's subtree, left to right, then the node. */
  function Post<L>(t: Tree<L>): (r: seq<Tree<L>>)
    ensures |r| == Size(t) && r[|r| - 1] == t
  {
    PostF(t.children) + [t]
  }

  function PostF<L>(cs: seq<Tree<L>>): (r: seq<Tree<L>>)
    ensures |r| == SizeF(cs)
  {
    if cs == [] then [] else PostF(cs[..|cs| - 1]) + Post(cs[|cs| - 1])
  }

  function Shift(s: seq<nat>, d: nat): (r: seq<nat>)
    ensures |r| == |s| && forall i :: 0 <= i < |s| ==> r[i] == s[i] + d
  {
    seq(|s|, i requires 0 <= i < |s| => s[i] + d)
  }

  /**
   * The postorder index of each node's leftmost leaf descendant, indexed by postorder:
   * the leftmost leaf of a node is the first node of its subtree in postorder.
   */
  function Lmld<L>(t: Tree<L>): (r: seq<nat>)
    ensures |r| == Size(t)
    ensures forall k :: 0 <= k < |r| ==> r[k] <= k
  {
    LmldF(t.children) + [0]
  }

  function LmldF<L>(cs: seq<Tree<L>>): (r: seq<nat>)
    ensures |r| == SizeF(cs)
    ensures forall k :: 0 <= k < |r| ==> r[k] <= k
  {
    if cs == [] then [] else LmldF(cs[..|cs| - 1]) + Shift(Lmld(cs[|cs| - 1]), SizeF(cs[..|cs| - 1]))
  }

  /** Shifts parent indices by `d`; a root (no parent) gets the parent `p`. */
  function Attach(s: seq<Option<nat>>, d: nat, p: nat): (r: seq<Option<nat>>)
    ensures |r| == |s|
    ensures forall i :: 0 <= i < |s| ==> r[i] == if s[i].None? then Some(p) else Some(s[i].value + d)
  {
    seq(|s|, i requires 0 <= i < |s| => if s[i].None? then Some(p) else Some(s[i].value + d))
  }

  /** The postorder index of each node's parent, indexed by postorder; the root has none. */
  function Parents<L>(t: Tree<L>): (r: seq<Option<nat>>)
    ensures |r| == Size(t)
  {
    ParentsF(t.children, SizeF(t.children)) + [None]
  }

  function ParentsF<L>(cs: seq<Tree<L>>, p: nat): (r: seq<Option<nat>>)
    ensures |r| == SizeF(cs)
  {
    if cs == [] then []
    else ParentsF(cs[..|cs| - 1], p) + Attach(Parents(cs[|cs| - 1]), SizeF(cs[..|cs| - 1]), p)
  }

  /** Distinct nodes have distinct identities. */
  ghost predicate DistinctIds<L>(t: Tree<L>)
  {
    forall i, j :: 0 <= i < j < Size(t) ==> Post(t)[i].id != Post(t)[j].id
  }

  /** The number of leaves. */
  function Leaves<L>(t: Tree<L>): nat
  {
    if t.children == [] then 1 else LeavesF(t.children)
  }

  function LeavesF<L>(cs: seq<Tree<L>>): nat
  {
    if cs == [] then 0 else LeavesF(cs[..|cs| - 1]) + Leaves(cs[|cs| - 1])
  }

  // ---------------------------------------------------------------------------
  // Layout of a forest: child `i` occupies the block after the first `i` children.

  lemma {:induction false} SizeFPrefix<L>(cs: seq<Tree<L>>, i: nat)
    requires i <= |cs|
    ensures SizeF(cs[..i]) <= SizeF(cs)
    ensures i < |cs| ==> SizeF(cs[..i + 1]) == SizeF(cs[..i]) + Size(cs[i])
    decreases |cs|
  {
    if i < |cs| {
      assert cs[..i + 1][..i] == cs[..i];
    }
    if i < |cs| {
      var init := cs[..|cs| - 1];
      assert init[..i] == cs[..i];
      SizeFPrefix(init, i);
      if i == |cs| - 1 {
        assert cs[..i + 1] == cs;
      } else {
        assert init[..i + 1] == cs[..i + 1];
      }
    } else {
      assert cs[..i] == cs;
    }
  }

  /** The postorder nodes of child `i` form one block of the forest's postorder. */
  lemma {:induction false} PostFBlock<L>(cs: seq<Tree<L>>, i: nat)
    requires i < |cs|
    ensures SizeF(cs[..i]) + Size(cs[i]) <= SizeF(cs)
    ensures PostF(cs)[SizeF(cs[..i])..SizeF(cs[..i]) + Size(cs[i])] == Post(cs[i])
    decreases |cs|
  {
    var init := cs[..|cs| - 1];
    assert PostF(cs) == PostF(init) + Post(cs[|cs| - 1]);
    if i == |cs| - 1 {
      assert init == cs[..i];
      SliceOfSuffix(PostF(init), Post(cs[i]));
    } else {
      assert init[..i] == cs[..i] && init[i] == cs[i];
      PostFBlock(init, i);
      SliceOfPrefix(PostF(init), Post(cs[|cs| - 1]), SizeF(cs[..i]), SizeF(cs[..i]) + Size(cs[i]));
    }
  }

  /** The leftmost leaves of child `i`, shifted by its offset, form one block of the forest's. */
  lemma {:induction false} LmldFBlock<L>(cs: seq<Tree<L>>, i: nat)
    requires i < |cs|
    ensures SizeF(cs[..i]) + Size(cs[i]) <= SizeF(cs)
    ensures LmldF(cs)[SizeF(cs[..i])..SizeF(cs[..i]) + Size(cs[i])] == Shift(Lmld(cs[i]), SizeF(cs[..i]))
    decreases |cs|
  {
    var init := cs[..|cs| - 1];
    assert LmldF(cs) == LmldF(init) + Shift(Lmld(cs[|cs| - 1]), SizeF(init));
    if i == |cs| - 1 {
      assert init == cs[..i];
      SliceOfSuffix(LmldF(init), Shift(Lmld(cs[i]), SizeF(init)));
    } else {
      assert init[..i] == cs[..i] && init[i] == cs[i];
      LmldFBlock(init, i);
      SliceOfPrefix(LmldF(init), Shift(Lmld(cs[|cs| - 1]), SizeF(init)), SizeF(cs[..i]), SizeF(cs[..i]) + Size(cs[i]));
    }
  }

  /** The parents of child `i`, shifted by its offset, form one block of the forest's. */
  lemma {:induction false} ParentsFBlock<L>(cs: seq<Tree<L>>, i: nat, p: nat)
    requires i < |cs|
    ensures SizeF(cs[..i]) + Size(cs[i]) <= SizeF(cs)
    ensures ParentsF(cs, p)[SizeF(cs[..i])..SizeF(cs[..i]) + Size(cs[i])]
         == Attach(Parents(cs[i]), SizeF(cs[..i]), p)
    decreases |cs|
  {
    var init := cs[..|cs| - 1];
    assert ParentsF(cs, p) == ParentsF(init, p) + Attach(Parents(cs[|cs| - 1]), SizeF(init), p);
    if i == |cs| - 1 {
      assert init == cs[..i];
      SliceOfSuffix(ParentsF(init, p), Attach(Parents(cs[i]), SizeF(init), p));
    } else {
      assert init[..i] == cs[..i] && init[i] == cs[i];
      ParentsFBlock(init, i, p);
      SliceOfPrefix(ParentsF(init, p), Attach(Parents(cs[|cs| - 1]), SizeF(init), p), SizeF(cs[..i]), SizeF(cs[..i]) + Size(cs[i]));
    }
  }

  /**
   * The node at postorder index `k` heads a subtree whose nodes are the `Size` indices
   * ending at `k`, in postorder; its leftmost leaf is the first of them.
   */
  lemma {:induction false} SubtreeLayout<L>(t: Tree<L>, k: nat)
    requires k < Size(t)
    ensures Size(Post(t)[k]) <= k + 1
    ensures Post(t)[k + 1 - Size(Post(t)[k])..k + 1] == Post(Post(t)[k])
    ensures Lmld(t)[k] == k + 1 - Size(Post(t)[k])
    decreases t, 1
  {
    var cs := t.children;
    assert Post(t) == PostF(cs) + [t] && Lmld(t) == LmldF(cs) + [0];
    if k < Size(t) - 1 {
      SubtreeLayoutF(cs, k);
      LayoutInPrefix(PostF(cs), [t], LmldF(cs), [0], k, Size(PostF(cs)[k]));
    } else {
      assert Post(t)[k] == t;
      assert Post(t)[0..k + 1] == Post(t);
    }
  }

  lemma {:induction false} SubtreeLayoutF<L>(cs: seq<Tree<L>>, k: nat)
    requires k < SizeF(cs)
    ensures Size(PostF(cs)[k]) <= k + 1
    ensures PostF(cs)[k + 1 - Size(PostF(cs)[k])..k + 1] == Post(PostF(cs)[k])
    ensures LmldF(cs)[k] == k + 1 - Size(PostF(cs)[k])
    decreases cs, 0
  {
    var init, last := cs[..|cs| - 1], cs[|cs| - 1];
    var off := SizeF(init);
    assert PostF(cs) == PostF(init) + Post(last);
    assert LmldF(cs) == LmldF(init) + Shift(Lmld(last), off);
    if k < off {
      SubtreeLayoutF(init, k);
      LayoutInPrefix(PostF(init), Post(last), LmldF(init), Shift(Lmld(last), off), k, Size(PostF(init)[k]));
    } else {
      SubtreeLayout(last, k - off);
      LayoutInSuffix(PostF(init), Post(last), Lmld(last), k, Size(Post(last)[k - off]));
    }
  }

  lemma {:induction false} LayoutInPrefix<T>(a: seq<T>, b: seq<T>, la: seq<nat>, lb: seq<nat>, k: nat, n: nat)
    requires k < |a| == |la| && 1 <= n <= k + 1
    ensures (a + b)[k] == a[k] && (la + lb)[k] == la[k]
    ensures (a + b)[k + 1 - n..k + 1] == a[k + 1 - n..k + 1]
  {
  }

  lemma {:induction false} LayoutInSuffix<T>(a: seq<T>, b: seq<T>, lb: seq<nat>, k: nat, n: nat)
    requires |a| <= k < |a| + |b| && |b| == |lb| && 1 <= n <= k - |a| + 1
    ensures (a + b)[k] == b[k - |a|]
    ensures (a + b)[k + 1 - n..k + 1] == b[k - |a| + 1 - n..k - |a| + 1]
    ensures (Shift(lb, |a|))[k - |a|] == lb[k - |a|] + |a|
  {
  }

  /** Every node of a subtree has its leftmost leaf inside that subtree (laminarity). */
  lemma {:induction false} LmldLaminar<L>(t: Tree<L>, k: nat, u: nat)
    requires k < Size(t) && Lmld(t)[k] <= u <= k
    ensures Lmld(t)[k] <= Lmld(t)[u] <= u
  {
    SubtreeLayout(t, k);
    SubtreeLayout(t, u);
    var n := Post(t)[k];
    var s := k + 1 - Size(n);
    assert Post(t)[u] == Post(n)[u - s];
    SubtreeLayout(n, u - s);
  }

  /** The leftmost leaf descendant of a leaf is the leaf itself. */
  lemma {:induction false} LmldOfLeaf<L>(t: Tree<L>, k: nat)
    requires k < Size(t)
    ensures Lmld(t)[k] == k <==> Post(t)[k].children == []
  {
    SubtreeLayout(t, k);
    var n := Post(t)[k];
    if n.children != [] {
      SizeFPrefix(n.children, 0);
    }
  }

  /**
   * The first child of the node at index `k` sits at index `f`, and shares its leftmost
   * leaf descendant.
   */
  lemma {:induction false} LmldOfFirstChild<L>(t: Tree<L>, k: nat) returns (f: nat)
    requires k < Size(t) && Post(t)[k].children != []
    ensures f < k && Post(t)[f] == Post(t)[k].children[0]
    ensures Lmld(t)[f] == Lmld(t)[k]
  {
    var n := Post(t)[k];
    var cs := n.children;
    f := ChildIndex(t, k, n, 0);
    assert SizeF(cs[..1]) == Size(cs[0]) by {
      SizeFPrefix(cs, 0);
      assert cs[..0] == [];
    }
    assert Lmld(t)[k] == k + 1 - Size(n) by {
      SubtreeLayout(t, k);
    }
    assert Lmld(t)[f] == f + 1 - Size(cs[0]) by {
      SubtreeLayout(t, f);
    }
  }

  /** Child `i` of the node `n` at index `k` sits at the end of the `i`-th block of `n`'s subtree. */
  lemma {:induction false} ChildIndex<L>(t: Tree<L>, k: nat, n: Tree<L>, i: nat) returns (ci: nat)
    requires k < Size(t) && Post(t)[k] == n && i < |n.children|
    ensures ci == k + 1 - Size(n) + SizeF(n.children[..i + 1]) - 1 < k
    ensures Post(t)[ci] == n.children[i]
  {
    var cs := n.children;
    var s := k + 1 - Size(n);
    assert Size(n) <= k + 1 && Post(t)[s..k + 1] == Post(n) by {
      SubtreeLayout(t, k);
    }
    var lo := SizeF(cs[..i]);
    var c := cs[i];
    var hi := lo + Size(c);
    assert hi <= SizeF(cs) && PostF(cs)[lo..hi] == Post(c) by {
      PostFBlock(cs, i);
    }
    assert SizeF(cs[..i + 1]) == hi by {
      SizeFPrefix(cs, i);
    }
    ci := s + hi - 1;
    PickThrough(Post(t), s, k + 1, PostF(cs), [n], lo, hi, Post(c));
  }

  /**
   * Child `i` of the node `n` at index `k`, whose block starts at `b`, is the node at index
   * `ci`; its own block starts at `done`, after the blocks of the children before it.
   */
  lemma {:induction false} ChildBlock<L>(t: Tree<L>, k: nat, n: Tree<L>, i: nat, b: nat, done: nat) returns (ci: nat)
    requires k < Size(t) && Post(t)[k] == n && i < |n.children|
    requires b == k + 1 - Size(n) && done == b + SizeF(n.children[..i])
    ensures ci < k && Post(t)[ci] == n.children[i] && Size(n.children[i]) <= ci + 1
    ensures ci + 1 - Size(n.children[i]) == done
    ensures ci + 1 == b + SizeF(n.children[..i + 1])
  {
    ci := ChildIndex(t, k, n, i);
    SizeFPrefix(n.children, i);
  }

  lemma {:induction false} PickThrough<T>(whole: seq<T>, s: nat, e: nat, f: seq<T>, extra: seq<T>, lo: nat, hi: nat, blk: seq<T>)
    requires s <= e <= |whole| && whole[s..e] == f + extra
    requires lo < hi <= |f| && f[lo..hi] == blk
    ensures whole[s + hi - 1] == blk[hi - lo - 1]
  {
    assert whole[s + hi - 1] == whole[s..e][hi - 1] == (f + extra)[hi - 1] == f[hi - 1];
  }

  /**
   * Children are numbered left to right: child `i` of the node at index `k` has a lower
   * index than child `j > i`, and both lie below `k`.
   */
  lemma {:induction false} ChildrenNumberedLeftToRight<L>(t: Tree<L>, k: nat, i: nat, j: nat) returns (ci: nat, cj: nat)
    requires k < Size(t) && i < j < |Post(t)[k].children|
    ensures ci < cj < k
    ensures Post(t)[ci] == Post(t)[k].children[i] && Post(t)[cj] == Post(t)[k].children[j]
  {
    ci := ChildIndex(t, k, Post(t)[k], i);
    cj := ChildIndex(t, k, Post(t)[k], j);
    var cs := Post(t)[k].children;
    SizeFPrefix(cs, j);
    SizeFPrefix(cs[..j], i + 1);
    assert cs[..j][..i + 1] == cs[..i + 1];
  }

  /**
   * Parent indices: the root alone has no parent; every other node's parent comes later
   * in postorder and lists the node among its children.
   */
  lemma {:induction false} ParentsLayout<L>(t: Tree<L>, k: nat)
    requires k < Size(t)
    ensures Parents(t)[k].None? <==> k == Size(t) - 1
    ensures Parents(t)[k].Some? ==>
      k < Parents(t)[k].value < Size(t) && Post(t)[k] in Post(t)[Parents(t)[k].value].children
    decreases t, 1
  {
    if k < Size(t) - 1 {
      ParentsLayoutF(t.children, SizeF(t.children), k);
    }
  }

  lemma {:induction false} ParentsLayoutF<L>(cs: seq<Tree<L>>, p: nat, k: nat)
    requires k < SizeF(cs)
    ensures ParentsF(cs, p)[k].Some?
    ensures (ParentsF(cs, p)[k] == Some(p) && PostF(cs)[k] in cs)
         || (k < ParentsF(cs, p)[k].value < SizeF(cs) && PostF(cs)[k] in PostF(cs)[ParentsF(cs, p)[k].value].children)
    decreases cs, 0
  {
    var init, last := cs[..|cs| - 1], cs[|cs| - 1];
    var off := SizeF(init);
    var a, b := PostF(init), Post(last);
    var pa, pb := ParentsF(init, p), Attach(Parents(last), off, p);
    assert PostF(cs) == a + b && ParentsF(cs, p) == pa + pb;
    if k < off {
      ParentsLayoutF(init, p, k);
      ParentsInPrefix(init, cs, a, b, pa, pb, k, p);
    } else {
      var o := k - off;
      ParentsLayout(last, o);
      ParentsInSuffix(last, cs, a, b, Parents(last), k, p);
    }
  }

  lemma {:induction false} ParentsInPrefix<L>(init: seq<Tree<L>>, cs: seq<Tree<L>>, a: seq<Tree<L>>, b: seq<Tree<L>>,
                           pa: seq<Option<nat>>, pb: seq<Option<nat>>, k: nat, p: nat)
    requires forall x :: x in init ==> x in cs
    requires k < |a| == |pa| && |b| == |pb|
    requires pa[k].Some?
    requires (pa[k] == Some(p) && a[k] in init) || (k < pa[k].value < |a| && a[k] in a[pa[k].value].children)
    ensures (pa + pb)[k].Some?
    ensures ((pa + pb)[k] == Some(p) && (a + b)[k] in cs)
         || (k < (pa + pb)[k].value < |a + b| && (a + b)[k] in (a + b)[(pa + pb)[k].value].children)
  {
    assert (pa + pb)[k] == pa[k] && (a + b)[k] == a[k];
    if !(pa[k] == Some(p) && a[k] in init) {
      assert (a + b)[pa[k].value] == a[pa[k].value];
    }
  }

  lemma {:induction false} ParentsInSuffix<L>(last: Tree<L>, cs: seq<Tree<L>>, a: seq<Tree<L>>, b: seq<Tree<L>>,
                           pl: seq<Option<nat>>, k: nat, p: nat)
    requires last in cs && b == Post(last) && |pl| == |b|
    requires |a| <= k < |a| + |b|
    requires pl[k - |a|].None? <==> k - |a| == |b| - 1
    requires pl[k - |a|].Some? ==> k - |a| < pl[k - |a|].value < |b| && b[k - |a|] in b[pl[k - |a|].value].children
    ensures Attach(pl, |a|, p)[k - |a|].Some?
    ensures (Attach(pl, |a|, p)[k - |a|] == Some(p) && (a + b)[k] in cs)
         || (k < Attach(pl, |a|, p)[k - |a|].value < |a + b|
             && (a + b)[k] in (a + b)[Attach(pl, |a|, p)[k - |a|].value].children)
  {
    var o := k - |a|;
    assert (a + b)[k] == b[o];
    if pl[o].Some? {
      assert (a + b)[pl[o].value + |a|] == b[pl[o].value];
    }
  }

  // Trees of the same shape.

  /** The same shape: as many children, pairwise of the same shape; labels and identities may differ. */
  predicate Similar<L>(t1: Tree<L>, t2: Tree<L>)
    decreases t1
  {
    |t1.children| == |t2.children| && forall i :: 0 <= i < |t1.children| ==> Similar(t1.children[i], t2.children[i])
  }

  /** The same labels in the same shape: the trees differ at most in their identities. */
  predicate Copy<L(==)>(t1: Tree<L>, t2: Tree<L>)
    decreases t1
  {
    t1.lbl == t2.lbl && |t1.children| == |t2.children|
    && forall i :: 0 <= i < |t1.children| ==> Copy(t1.children[i], t2.children[i])
  }

  /** Trees of the same shape have the same postorder layout: sizes, leftmost leaves and parents. */
  lemma {:induction false} SimilarLayout<L>(t1: Tree<L>, t2: Tree<L>)
    requires Similar(t1, t2)
    ensures Size(t1) == Size(t2) && Lmld(t1) == Lmld(t2) && Parents(t1) == Parents(t2)
    decreases t1, 1
  {
    SimilarLayoutF(t1.children, t2.children, SizeF(t1.children));
  }

  lemma {:induction false} SimilarLayoutF<L>(cs1: seq<Tree<L>>, cs2: seq<Tree<L>>, p: nat)
    requires |cs1| == |cs2| && forall i :: 0 <= i < |cs1| ==> Similar(cs1[i], cs2[i])
    ensures SizeF(cs1) == SizeF(cs2) && LmldF(cs1) == LmldF(cs2) && ParentsF(cs1, p) == ParentsF(cs2, p)
    decreases cs1, 0
  {
    if cs1 != [] {
      var n := |cs1| - 1;
      SimilarLayoutF(cs1[..n], cs2[..n], p);
      SimilarLayout(cs1[n], cs2[n]);
    }
  }

  /** Copies have the same shape and carry the same label at every postorder index. */
  lemma {:induction false} CopyLayout<L>(t1: Tree<L>, t2: Tree<L>)
    requires Copy(t1, t2)
    ensures Similar(t1, t2) && Size(t1) == Size(t2)
    ensures forall k :: 0 <= k < Size(t1) ==> Post(t1)[k].lbl == Post(t2)[k].lbl
    decreases t1, 1
  {
    CopyLayoutF(t1.children, t2.children);
  }

  lemma {:induction false} CopyLayoutF<L>(cs1: seq<Tree<L>>, cs2: seq<Tree<L>>)
    requires |cs1| == |cs2| && forall i :: 0 <= i < |cs1| ==> Copy(cs1[i], cs2[i])
    ensures (forall i :: 0 <= i < |cs1| ==> Similar(cs1[i], cs2[i])) && SizeF(cs1) == SizeF(cs2)
    ensures forall k :: 0 <= k < SizeF(cs1) ==> PostF(cs1)[k].lbl == PostF(cs2)[k].lbl
    decreases cs1, 0
  {
    if cs1 != [] {
      var n := |cs1| - 1;
      CopyLayoutF(cs1[..n], cs2[..n]);
      CopyLayout(cs1[n], cs2[n]);
      forall i | 0 <= i < |cs1| ensures Similar(cs1[i], cs2[i]) {
        if i < n {
          assert cs1[..n][i] == cs1[i] && cs2[..n][i] == cs2[i];
        }
      }
      var a1, a2, b1, b2 := PostF(cs1[..n]), PostF(cs2[..n]), Post(cs1[n]), Post(cs2[n]);
      forall k | 0 <= k < SizeF(cs1) ensures PostF(cs1)[k].lbl == PostF(cs2)[k].lbl {
        if k < |a1| {
          assert PostF(cs1)[k] == a1[k] && PostF(cs2)[k] == a2[k];
        } else {
          assert PostF(cs1)[k] == b1[k - |a1|] && PostF(cs2)[k] == b2[k - |a1|];
        }
      }
    }
  }

  // Generic slicing facts.

  lemma {:induction false} SliceOfSuffix<T>(a: seq<T>, c: seq<T>)
    ensures (a + c)[|a|..|a| + |c|] == c
  {
  }

  lemma {:induction false} SliceOfPrefix<T>(a: seq<T>, c: seq<T>, lo: nat, hi: nat)
    requires lo <= hi <= |a|
    ensures (a + c)[lo..hi] == a[lo..hi]
  {
  }

  lemma {:induction false} SliceOfSlice<T>(s: seq<T>, b: nat, e: nat, lo: nat, hi: nat)
    requires b <= e <= |s| && lo <= hi <= e - b
    ensures s[b..e][lo..hi] == s[b + lo..b + hi]
  {
    forall k | 0 <= k < hi - lo
      ensures s[b..e][lo..hi][k] == s[b + lo..b + hi][k]
    {
      assert s[b..e][lo..hi][k] == s[b..e][lo + k] == s[b + lo + k];
    }
  }
}
