/**
 * The forest-distance dynamic program of the Zhang–Shasha algorithm.
 *
 * Both trees are read by postorder index (`Indexed`). For a pair of keyroots, the table
 * cell `(i, j)` holds the trail from the empty forests to the forests made of the first
 * `j` nodes of the first keyroot's subtree and the first `i` nodes of the second's.
 * `Cell` is that cell as a function; `TreeCell(p, k, l)` is the cell for the whole
 * subtrees of nodes `k` and `l`, the entry the shared memo table keeps.
 */
module ForestDistances {
  import opened Wrappers
  import opened Operations
  import opened Trees
  import opened ReversibleMaps
  import opened Trails

  /** A tree read by postorder index: its nodes, each one's parent index and leftmost leaf index. */
  datatype Indexed<L> = Indexed(nodes: seq<Tree<L>>, parent: seq<Option<nat>>, lmld: seq<nat>)

  function IndexedOf<L>(t: Tree<L>): Indexed<L>
  {
    Indexed(Post(t), Parents(t), Lmld(t))
  }

  /**
   * The shape facts the program relies on: only the last node (the root) lacks a parent,
   * the root's leftmost leaf is node 0, and the subtree of a node contains the subtrees of
   * the nodes inside it (every node between a node's leftmost leaf and the node itself has
   * its own leftmost leaf in that range).
   */
  ghost predicate Valid<L>(x: Indexed<L>)
  {
    && |x.nodes| == |x.parent| == |x.lmld| > 0
    && x.lmld[|x.lmld| - 1] == 0
    && (forall k :: 0 <= k < |x.parent| ==> (x.parent[k].None? <==> k == |x.parent| - 1))
    && (forall k :: 0 <= k < |x.parent| && x.parent[k].Some? ==> x.parent[k].value < |x.nodes|)
    && (forall k :: 0 <= k < |x.lmld| ==> x.lmld[k] <= k)
    && (forall k, u :: 0 <= k < |x.lmld| && x.lmld[k] <= u <= k ==> x.lmld[k] <= x.lmld[u])
  }

  /** A tree's postorder view has the shape facts. */
  lemma {:induction false} IndexedOfValid<L>(t: Tree<L>)
    ensures Valid(IndexedOf(t))
  {
    var x := IndexedOf(t);
    forall k | 0 <= k < |x.parent|
      ensures (x.parent[k].None? <==> k == |x.parent| - 1)
      ensures x.parent[k].Some? ==> x.parent[k].value < |x.nodes|
    {
      ParentsLayout(t, k);
    }
    forall k, u | 0 <= k < |x.lmld| && x.lmld[k] <= u <= k
      ensures x.lmld[k] <= x.lmld[u]
    {
      LmldLaminar(t, k, u);
    }
  }

  /** The two trees and the label cost function. */
  datatype Problem<!L> = Problem(x1: Indexed<L>, x2: Indexed<L>, cost: CostFn<L>)

  /** The `j` nodes from index `lm` on form a forest closed under leftmost leaves. */
  ghost predicate Window<L>(x: Indexed<L>, lm: nat, j: nat)
  {
    Valid(x) && lm + j <= |x.lmld| && forall u :: lm <= u < lm + j ==> lm <= x.lmld[u]
  }

  /** The parent of the node at index `k`, if any. */
  function ParentNode<L>(x: Indexed<L>, k: nat): Option<Tree<L>>
    requires Valid(x) && k < |x.nodes|
  {
    if x.parent[k].None? then None else Some(x.nodes[x.parent[k].value])
  }

  /** Inserting node `l` of the second tree, under its parent. */
  function InsertStep<L>(p: Problem<L>, l: nat, next: Trail<L>): Trail<L>
    requires Valid(p.x2) && l < |p.x2.nodes|
  {
    OpStep(Insert, p.x2.nodes[l], ParentNode(p.x2, l), next, p.cost)
  }

  /** Deleting node `k` of the first tree; deleting the root costs infinity. */
  function DeleteStep<L>(p: Problem<L>, k: nat, next: Trail<L>): Trail<L>
    requires Valid(p.x1) && k < |p.x1.nodes|
  {
    var d := OpStep(Delete, p.x1.nodes[k], None, next, p.cost);
    if p.x1.parent[k].None? then Blocked(d) else d
  }

  /** Node `k` spans a whole subtree of the forest starting at `lm1`, and node `l` of the one at `lm2`. */
  predicate Spans<L>(p: Problem<L>, lm1: nat, k: nat, lm2: nat, l: nat)
    requires k < |p.x1.lmld| && l < |p.x2.lmld|
  {
    p.x1.lmld[k] == lm1 && p.x2.lmld[l] == lm2
  }

  /**
   * Cell `(i, j)` of the table for the forests starting at `lm1` and `lm2`: row and column 0
   * chain deletes and inserts; any other cell is an interior cell.
   */
  function Cell<L>(p: Problem<L>, lm1: nat, j: nat, lm2: nat, i: nat): Trail<L>
    requires Window(p.x1, lm1, j) && Window(p.x2, lm2, i)
    decreases i + j, 3
  {
    if i == 0 && j == 0 then Origin
    else if j == 0 then InsertStep(p, lm2 + i - 1, Cell(p, lm1, 0, lm2, i - 1))
    else if i == 0 then DeleteStep(p, lm1 + j - 1, Cell(p, lm1, j - 1, lm2, 0))
    else Interior(p, lm1, j, lm2, i)
  }

  /**
   * An interior cell: the cheapest of an insert of node `l`, a delete of node `k` and a
   * rename of `k` into `l`.
   */
  function Interior<L>(p: Problem<L>, lm1: nat, j: nat, lm2: nat, i: nat): Trail<L>
    requires Window(p.x1, lm1, j) && Window(p.x2, lm2, i) && i > 0 && j > 0
    decreases i + j, 2
  {
    Cheapest(InsertStep(p, lm2 + i - 1, Cell(p, lm1, j, lm2, i - 1)),
             DeleteStep(p, lm1 + j - 1, Cell(p, lm1, j - 1, lm2, i)),
             Renaming(p, lm1, j, lm2, i))
  }

  /**
   * The rename candidate of cell `(i, j)`, matching node `k` with node `l`: when both span
   * whole subtrees of their forests it extends the diagonal cell, otherwise it reuses the
   * subtree pair's own result and extends the cell left of both subtrees.
   */
  function Renaming<L>(p: Problem<L>, lm1: nat, j: nat, lm2: nat, i: nat): Trail<L>
    requires Window(p.x1, lm1, j) && Window(p.x2, lm2, i) && i > 0 && j > 0
    decreases i + j, 1
  {
    var k, l := lm1 + j - 1, lm2 + i - 1;
    if Spans(p, lm1, k, lm2, l) then
      OpStep(Rename, p.x1.nodes[k], Some(p.x2.nodes[l]), Cell(p, lm1, j - 1, lm2, i - 1), p.cost)
    else
      Reuse(p, lm1, lm2, k, l)
  }

  /**
   * The rename of node `k` into node `l` that reuses their subtree pair's result and extends
   * the cell left of both subtrees.
   */
  function Reuse<L>(p: Problem<L>, lm1: nat, lm2: nat, k: nat, l: nat): Trail<L>
    requires lm1 <= k && lm2 <= l && Window(p.x1, lm1, k + 1 - lm1) && Window(p.x2, lm2, l + 1 - lm2)
    requires !Spans(p, lm1, k, lm2, l)
    decreases k + 1 - lm1 + l + 1 - lm2, 0
  {
    var s1, s2 := p.x1.lmld[k], p.x2.lmld[l];
    TreeStep(TreeCell(p, k, l), p.x1.nodes[k], p.x2.nodes[l], Cell(p, lm1, s1 - lm1, lm2, s2 - lm2))
  }

  /** The trail between the whole subtrees of node `k` of the first tree and node `l` of the second. */
  function TreeCell<L>(p: Problem<L>, k: nat, l: nat): Trail<L>
    requires Valid(p.x1) && Valid(p.x2) && k < |p.x1.nodes| && l < |p.x2.nodes|
    decreases k + 1 - p.x1.lmld[k] + l + 1 - p.x2.lmld[l], 4
  {
    var s1, s2 := p.x1.lmld[k], p.x2.lmld[l];
    Cell(p, s1, k + 1 - s1, s2, l + 1 - s2)
  }

  // ---------------------------------------------------------------------------
  // The tables.

  /**
   * The postorder map and the leftmost-leaf array of a tree agree with its view: index `k`
   * maps back to node `k`, and node `k`'s leftmost leaf is numbered `lmld[k]`.
   */
  ghost predicate Agrees<L>(x: Indexed<L>, post: ReversibleMap<Tree<L>, nat>, lmld: seq<Tree<L>>)
    reads post
  {
    Valid(x) && |lmld| == |x.nodes| && forall k :: 0 <= k < |x.nodes| ==> Knows(x, post, lmld, k)
  }

  /** Index `k` maps back to node `k`, and node `k`'s leftmost leaf is numbered `lmld[k]`. */
  ghost predicate Knows<L>(x: Indexed<L>, post: ReversibleMap<Tree<L>, nat>, lmld: seq<Tree<L>>, k: nat)
    reads post
  {
    k < |x.nodes| && k < |x.lmld| && k < |lmld| && k in post.inverse && post.inverse[k] == x.nodes[k]
    && lmld[k] in post.dict && post.dict[lmld[k]] == x.lmld[k]
  }

  /** The memo is indexed `[l, k]`, second tree first, and every entry present is its subtree pair's cell. */
  ghost predicate MemoSound<L>(p: Problem<L>, memo: array2<Option<Trail<L>>>)
    reads memo
  {
    Valid(p.x1) && Valid(p.x2) && memo.Length0 == |p.x2.nodes| && memo.Length1 == |p.x1.nodes|
    && forall l, k :: 0 <= l < memo.Length0 && 0 <= k < memo.Length1 && memo[l, k].Some? ==>
      memo[l, k].value == TreeCell(p, k, l)
  }

  /** The memo entries the table for keyroots `kr1` and `kr2` writes: the subtree pairs it spans. */
  ghost predicate Written<L>(p: Problem<L>, kr1: nat, kr2: nat, k: nat, l: nat)
    requires kr1 < |p.x1.lmld| && kr2 < |p.x2.lmld|
  {
    var lm1, lm2 := p.x1.lmld[kr1], p.x2.lmld[kr2];
    lm1 <= k <= kr1 && lm2 <= l <= kr2 && Spans(p, lm1, k, lm2, l)
  }

  /**
   * Every subtree pair inside the forests of keyroots `kr1` and `kr2` that the table does
   * not itself span already has its memo entry.
   */
  ghost predicate Ready<L>(p: Problem<L>, memo: array2<Option<Trail<L>>>, kr1: nat, kr2: nat)
    reads memo
    requires Valid(p.x1) && Valid(p.x2) && kr1 < |p.x1.lmld| && kr2 < |p.x2.lmld|
  {
    memo.Length0 == |p.x2.nodes| && memo.Length1 == |p.x1.nodes|
    && forall k, l ::
         (p.x1.lmld[kr1] <= k <= kr1 && p.x2.lmld[kr2] <= l <= kr2 && !Spans(p, p.x1.lmld[kr1], k, p.x2.lmld[kr2], l))
         ==> memo[l, k].Some?
  }

  /** `v`, the content of table cell `(i, j)`, is `Cell(p, lm1, j, lm2, i)`. */
  ghost predicate IsCell<L>(p: Problem<L>, lm1: nat, lm2: nat, i: nat, j: nat, v: Option<Trail<L>>)
  {
    Window(p.x1, lm1, j) && Window(p.x2, lm2, i) && v == Some(Cell(p, lm1, j, lm2, i))
  }

  /**
   * The table of keyroots `keyRoot1` and `keyRoot2`. The memo gains exactly the cells of the
   * subtree pairs the table spans, and every entry it holds remains its pair's cell.
   */
  method ForestDistance<L(==)>(p: Problem<L>, post1: ReversibleMap<Tree<L>, nat>, post2: ReversibleMap<Tree<L>, nat>,
                               lmld1: seq<Tree<L>>, lmld2: seq<Tree<L>>, memo: array2<Option<Trail<L>>>,
                               keyRoot1: Tree<L>, keyRoot2: Tree<L>)
    requires Agrees(p.x1, post1, lmld1) && Agrees(p.x2, post2, lmld2)
    requires post1.Has(keyRoot1) && post1.Get(keyRoot1) < |p.x1.nodes|
    requires post2.Has(keyRoot2) && post2.Get(keyRoot2) < |p.x2.nodes|
    requires MemoSound(p, memo) && Ready(p, memo, post1.Get(keyRoot1), post2.Get(keyRoot2))
    modifies memo
    ensures MemoSound(p, memo)
    ensures forall l, k :: 0 <= l < memo.Length0 && 0 <= k < memo.Length1 ==>
      memo[l, k] == if Written(p, post1.Get(keyRoot1), post2.Get(keyRoot2), k, l) then Some(TreeCell(p, k, l))
                    else old(memo[l, k])
  {
    var kr1 := post1.Get(keyRoot1);
    var kr2 := post2.Get(keyRoot2);
    assert Knows(p.x1, post1, lmld1, kr1) && Knows(p.x2, post2, lmld2, kr2);
    var lm1 := post1.Get(lmld1[kr1]);
    var lm2 := post2.Get(lmld2[kr2]);
    var bound1 := kr1 - lm1 + 2;
    var bound2 := kr2 - lm2 + 2;
    assert Window(p.x1, lm1, bound1 - 1) && Window(p.x2, lm2, bound2 - 1);

    var fd := new Option<Trail<L>>[bound2, bound1]((_, _) => None);
    fd[0, 0] := Some(Origin);
    FillEdges(p, post1, post2, lmld1, lmld2, fd, lm1, lm2);
    FillColumns(p, post1, post2, lmld1, lmld2, memo, fd, kr1, kr2);
  }

  /** Columns 1 onwards of the table, left to right; the memo gains every subtree pair written. */
  method FillColumns<L(==)>(p: Problem<L>, post1: ReversibleMap<Tree<L>, nat>, post2: ReversibleMap<Tree<L>, nat>,
                            lmld1: seq<Tree<L>>, lmld2: seq<Tree<L>>, memo: array2<Option<Trail<L>>>,
                            fd: array2<Option<Trail<L>>>, kr1: nat, kr2: nat)
    requires Agrees(p.x1, post1, lmld1) && Agrees(p.x2, post2, lmld2)
    requires kr1 < |p.x1.nodes| && kr2 < |p.x2.nodes|
    requires fd.Length0 == kr2 - p.x2.lmld[kr2] + 2 && fd.Length1 == kr1 - p.x1.lmld[kr1] + 2 && fd != memo
    requires forall i :: 0 <= i < fd.Length0 ==> IsCell(p, p.x1.lmld[kr1], p.x2.lmld[kr2], i, 0, fd[i, 0])
    requires forall j :: 0 <= j < fd.Length1 ==> IsCell(p, p.x1.lmld[kr1], p.x2.lmld[kr2], 0, j, fd[0, j])
    requires MemoSound(p, memo) && Ready(p, memo, kr1, kr2)
    modifies fd, memo
    ensures MemoSound(p, memo)
    ensures forall l, k :: 0 <= l < memo.Length0 && 0 <= k < memo.Length1 ==>
      memo[l, k] == if Written(p, kr1, kr2, k, l) then Some(TreeCell(p, k, l)) else old(memo[l, k])
  {
    var lm1, lm2 := p.x1.lmld[kr1], p.x2.lmld[kr2];
    for j := 1 to fd.Length1
      invariant forall i', j' :: 0 <= i' < fd.Length0 && 0 <= j' < j ==> IsCell(p, lm1, lm2, i', j', fd[i', j'])
      invariant forall j' :: 0 <= j' < fd.Length1 ==> IsCell(p, lm1, lm2, 0, j', fd[0, j'])
      invariant MemoSound(p, memo) && Ready(p, memo, kr1, kr2)
      invariant forall l, k :: 0 <= l < memo.Length0 && 0 <= k < memo.Length1 ==>
        memo[l, k] == if Written(p, kr1, kr2, k, l) && k < lm1 + j - 1 then Some(TreeCell(p, k, l)) else old(memo[l, k])
    {
      FillColumn(p, post1, post2, lmld1, lmld2, memo, fd, kr1, kr2, j);
    }
  }

  /**
   * Column `j` of the table, the forests ending at node `lm1 + j - 1` of the first tree;
   * the memo gains the subtree pairs of that node.
   */
  method FillColumn<L(==)>(p: Problem<L>, post1: ReversibleMap<Tree<L>, nat>, post2: ReversibleMap<Tree<L>, nat>,
                           lmld1: seq<Tree<L>>, lmld2: seq<Tree<L>>, memo: array2<Option<Trail<L>>>,
                           fd: array2<Option<Trail<L>>>, kr1: nat, kr2: nat, j: nat)
    requires Agrees(p.x1, post1, lmld1) && Agrees(p.x2, post2, lmld2)
    requires kr1 < |p.x1.nodes| && kr2 < |p.x2.nodes|
    requires fd.Length0 == kr2 - p.x2.lmld[kr2] + 2 && fd.Length1 == kr1 - p.x1.lmld[kr1] + 2
    requires 0 < j < fd.Length1 && fd != memo
    requires forall i', j' :: 0 <= i' < fd.Length0 && 0 <= j' < j ==>
      IsCell(p, p.x1.lmld[kr1], p.x2.lmld[kr2], i', j', fd[i', j'])
    requires IsCell(p, p.x1.lmld[kr1], p.x2.lmld[kr2], 0, j, fd[0, j])
    requires MemoSound(p, memo) && Ready(p, memo, kr1, kr2)
    modifies fd, memo
    ensures forall i', j' :: 0 <= i' < fd.Length0 && 0 <= j' < fd.Length1 && j' != j ==> fd[i', j'] == old(fd[i', j'])
    ensures forall i' :: 0 <= i' < fd.Length0 ==> IsCell(p, p.x1.lmld[kr1], p.x2.lmld[kr2], i', j, fd[i', j])
    ensures MemoSound(p, memo) && Ready(p, memo, kr1, kr2)
    ensures forall l, k :: 0 <= l < memo.Length0 && 0 <= k < memo.Length1 ==>
      memo[l, k] == if Written(p, kr1, kr2, k, l) && k == p.x1.lmld[kr1] + j - 1 then Some(TreeCell(p, k, l))
                    else old(memo[l, k])
  {
    var lm1, lm2 := p.x1.lmld[kr1], p.x2.lmld[kr2];
    var k := lm1 + j - 1;
    assert Knows(p.x1, post1, lmld1, k);
    for i := 1 to fd.Length0
      invariant forall i', j' :: 0 <= i' < fd.Length0 && 0 <= j' < fd.Length1 && j' != j ==> fd[i', j'] == old(fd[i', j'])
      invariant forall i' :: 0 <= i' < i ==> IsCell(p, lm1, lm2, i', j, fd[i', j])
      invariant forall l, k' :: 0 <= l < memo.Length0 && 0 <= k' < memo.Length1 ==>
        memo[l, k'] == if Written(p, kr1, kr2, k', l) && k' == k && l < lm2 + i - 1 then Some(TreeCell(p, k', l))
                       else old(memo[l, k'])
    {
      var l := lm2 + i - 1;
      assert Knows(p.x2, post2, lmld2, l);
      assert IsCell(p, lm1, lm2, i - 1, j, fd[i - 1, j]);
      assert IsCell(p, lm1, lm2, i, j - 1, fd[i, j - 1]) && IsCell(p, lm1, lm2, i - 1, j - 1, fd[i - 1, j - 1]);
      if !Spans(p, lm1, k, lm2, l) {
        assert lm1 <= p.x1.lmld[k] <= k && lm2 <= p.x2.lmld[l] <= l;
        assert IsCell(p, lm1, lm2, post2.Get(lmld2[l]) - lm2, post1.Get(lmld1[k]) - lm1,
                      fd[post2.Get(lmld2[l]) - lm2, post1.Get(lmld1[k]) - lm1]);
        assert !Written(p, kr1, kr2, k, l);
        assert old(memo[l, k]).Some?;
      }
      CellTrail(p, post1, post2, lmld1, lmld2, memo, fd, lm1, lm2, i, j, k, l);
    }
  }

  /** Row 0 chains deletes of the first forest, column 0 inserts of the second. */
  method FillEdges<L(==)>(p: Problem<L>, post1: ReversibleMap<Tree<L>, nat>, post2: ReversibleMap<Tree<L>, nat>,
                          lmld1: seq<Tree<L>>, lmld2: seq<Tree<L>>, fd: array2<Option<Trail<L>>>, lm1: nat, lm2: nat)
    requires Agrees(p.x1, post1, lmld1) && Agrees(p.x2, post2, lmld2)
    requires fd.Length0 > 0 && fd.Length1 > 0
    requires Window(p.x1, lm1, fd.Length1 - 1) && Window(p.x2, lm2, fd.Length0 - 1)
    requires fd[0, 0] == Some(Origin)
    modifies fd
    ensures forall i :: 0 <= i < fd.Length0 ==> IsCell(p, lm1, lm2, i, 0, fd[i, 0])
    ensures forall j :: 0 <= j < fd.Length1 ==> IsCell(p, lm1, lm2, 0, j, fd[0, j])
  {
    FillFirstColumn(p, post2, lmld2, fd, lm1, lm2);
    FillFirstRow(p, post1, lmld1, fd, lm1, lm2);
  }

  /** Column 0 of the table: the second forest's nodes inserted one after another. */
  method FillFirstColumn<L(==)>(p: Problem<L>, post2: ReversibleMap<Tree<L>, nat>, lmld2: seq<Tree<L>>,
                                fd: array2<Option<Trail<L>>>, lm1: nat, lm2: nat)
    requires Agrees(p.x2, post2, lmld2)
    requires fd.Length0 > 0 && fd.Length1 > 0
    requires Window(p.x1, lm1, fd.Length1 - 1) && Window(p.x2, lm2, fd.Length0 - 1)
    requires fd[0, 0] == Some(Origin)
    modifies fd
    ensures forall i :: 0 <= i < fd.Length0 ==> IsCell(p, lm1, lm2, i, 0, fd[i, 0])
    ensures forall i, j :: 0 <= i < fd.Length0 && 0 < j < fd.Length1 ==> fd[i, j] == old(fd[i, j])
  {
    for i := 1 to fd.Length0
      invariant forall i' :: 0 <= i' < i ==> IsCell(p, lm1, lm2, i', 0, fd[i', 0])
      invariant forall i', j :: 0 <= i' < fd.Length0 && 0 < j < fd.Length1 ==> fd[i', j] == old(fd[i', j])
    {
      var k := lm2 + i - 1;
      assert IsCell(p, lm1, lm2, i - 1, 0, fd[i - 1, 0]) && Knows(p.x2, post2, lmld2, k);
      var t := post2.GetInverse(k);
      var ft := OpStep(Insert, t, ParentNode(p.x2, k), fd[i - 1, 0].value, p.cost);
      fd[i, 0] := Some(ft);
    }
  }

  /** Row 0 of the table: the first forest's nodes deleted one after another; the root cannot be. */
  method FillFirstRow<L(==)>(p: Problem<L>, post1: ReversibleMap<Tree<L>, nat>, lmld1: seq<Tree<L>>,
                             fd: array2<Option<Trail<L>>>, lm1: nat, lm2: nat)
    requires Agrees(p.x1, post1, lmld1)
    requires fd.Length0 > 0 && fd.Length1 > 0
    requires Window(p.x1, lm1, fd.Length1 - 1) && Window(p.x2, lm2, fd.Length0 - 1)
    requires fd[0, 0] == Some(Origin)
    modifies fd
    ensures forall j :: 0 <= j < fd.Length1 ==> IsCell(p, lm1, lm2, 0, j, fd[0, j])
    ensures forall i :: 0 < i < fd.Length0 ==> fd[i, 0] == old(fd[i, 0])
  {
    for j := 1 to fd.Length1
      invariant forall j' :: 0 <= j' < j ==> IsCell(p, lm1, lm2, 0, j', fd[0, j'])
      invariant forall i :: 0 < i < fd.Length0 ==> fd[i, 0] == old(fd[i, 0])
    {
      var l := lm1 + j - 1;
      assert IsCell(p, lm1, lm2, 0, j - 1, fd[0, j - 1]) && Knows(p.x1, post1, lmld1, l);
      var t := post1.GetInverse(l);
      var ft := OpStep(Delete, t, None, fd[0, j - 1].value, p.cost);
      fd[0, j] := Some(ft);
      // deleting the root is ruled out
      if p.x1.parent[l].None? {
        fd[0, j] := Some(Blocked(fd[0, j].value));
      }
    }
  }

  /**
   * Cell `(i, j)` of the table, the forests ending at node `k` of the first tree and node
   * `l` of the second, as the source's loop body computes it from its three neighbours and
   * the rename candidate; a cell that spans a subtree pair also goes into the memo.
   */
  method CellTrail<L(==)>(p: Problem<L>, post1: ReversibleMap<Tree<L>, nat>, post2: ReversibleMap<Tree<L>, nat>,
                          lmld1: seq<Tree<L>>, lmld2: seq<Tree<L>>, memo: array2<Option<Trail<L>>>,
                          fd: array2<Option<Trail<L>>>, lm1: nat, lm2: nat, i: nat, j: nat, k: nat, l: nat)
    requires Window(p.x1, lm1, j) && Window(p.x2, lm2, i) && i > 0 && j > 0
    requires k == lm1 + j - 1 && l == lm2 + i - 1
    requires Knows(p.x1, post1, lmld1, k) && Knows(p.x2, post2, lmld2, l)
    requires i < fd.Length0 && j < fd.Length1 && fd != memo
    requires memo.Length0 == |p.x2.nodes| && memo.Length1 == |p.x1.nodes|
    requires IsCell(p, lm1, lm2, i - 1, j, fd[i - 1, j]) && IsCell(p, lm1, lm2, i, j - 1, fd[i, j - 1])
    requires IsCell(p, lm1, lm2, i - 1, j - 1, fd[i - 1, j - 1])
    requires !Spans(p, lm1, k, lm2, l) ==>
      && lm1 <= post1.Get(lmld1[k]) && lm2 <= post2.Get(lmld2[l])
      && post2.Get(lmld2[l]) - lm2 < fd.Length0 && post1.Get(lmld1[k]) - lm1 < fd.Length1
      && IsCell(p, lm1, lm2, post2.Get(lmld2[l]) - lm2, post1.Get(lmld1[k]) - lm1,
                fd[post2.Get(lmld2[l]) - lm2, post1.Get(lmld1[k]) - lm1])
      && memo[l, k] == Some(TreeCell(p, k, l))
    modifies fd, memo
    ensures fd[i, j] == Some(Cell(p, lm1, j, lm2, i))
    ensures forall i', j' :: 0 <= i' < fd.Length0 && 0 <= j' < fd.Length1 && (i' != i || j' != j) ==>
      fd[i', j'] == old(fd[i', j'])
    ensures forall l', k' :: 0 <= l' < memo.Length0 && 0 <= k' < memo.Length1 ==>
      memo[l', k'] == if l' == l && k' == k && Spans(p, lm1, k, lm2, l) then Some(TreeCell(p, k, l))
                      else old(memo[l', k'])
  {
    var first := post1.GetInverse(k);
    var second := post2.GetInverse(l);

    var insert := OpStep(Insert, second, ParentNode(p.x2, l), fd[i - 1, j].value, p.cost);
    var delete := OpStep(Delete, first, None, fd[i, j - 1].value, p.cost);
    // deleting the root is ruled out
    if p.x1.parent[k].None? {
      delete := Blocked(delete);
    }

    var rename, trees := RenameTrail(p, post1, post2, lmld1, lmld2, memo, fd, lm1, lm2, i, j, k, l);
    CellAt(p, lm1, j, lm2, i, k, l, insert, delete, rename);
    fd[i, j] := Some(Cheapest(insert, delete, rename));

    if trees {
      SpansCell(p, lm1, j, lm2, i, k, l);
      memo[l, k] := fd[i, j];
    }
  }

  /** The rename candidate of cell `(i, j)`; `trees` tells whether the cell spans a subtree pair. */
  method RenameTrail<L(==)>(p: Problem<L>, post1: ReversibleMap<Tree<L>, nat>, post2: ReversibleMap<Tree<L>, nat>,
                            lmld1: seq<Tree<L>>, lmld2: seq<Tree<L>>, memo: array2<Option<Trail<L>>>,
                            fd: array2<Option<Trail<L>>>, lm1: nat, lm2: nat, i: nat, j: nat, k: nat, l: nat)
    returns (rename: Trail<L>, trees: bool)
    requires Window(p.x1, lm1, j) && Window(p.x2, lm2, i) && i > 0 && j > 0
    requires k == lm1 + j - 1 && l == lm2 + i - 1
    requires Knows(p.x1, post1, lmld1, k) && Knows(p.x2, post2, lmld2, l)
    requires i < fd.Length0 && j < fd.Length1
    requires IsCell(p, lm1, lm2, i - 1, j - 1, fd[i - 1, j - 1])
    requires !Spans(p, lm1, k, lm2, l) ==>
      && lm1 <= post1.Get(lmld1[k]) && lm2 <= post2.Get(lmld2[l])
      && post2.Get(lmld2[l]) - lm2 < fd.Length0 && post1.Get(lmld1[k]) - lm1 < fd.Length1
      && IsCell(p, lm1, lm2, post2.Get(lmld2[l]) - lm2, post1.Get(lmld1[k]) - lm1,
                fd[post2.Get(lmld2[l]) - lm2, post1.Get(lmld1[k]) - lm1])
      && l < memo.Length0 && k < memo.Length1 && memo[l, k] == Some(TreeCell(p, k, l))
    ensures rename == Renaming(p, lm1, j, lm2, i)
    ensures trees == Spans(p, lm1, k, lm2, l)
  {
    var first := post1.GetInverse(k);
    var second := post2.GetInverse(l);
    // both forests are whole subtrees?
    trees := post1.Get(lmld1[k]) == lm1 && post2.Get(lmld2[l]) == lm2;
    if trees {
      rename := OpStep(Rename, first, Some(second), fd[i - 1, j - 1].value, p.cost);
      RenamingSpans(p, lm1, j, lm2, i, k, l);
    } else {
      rename := TreeStep(memo[l, k].value, first, second,
                         fd[post2.Get(lmld2[l]) - lm2, post1.Get(lmld1[k]) - lm1].value);
      RenamingReuse(p, lm1, j, lm2, i, k, l);
      ReuseIs(p, lm1, lm2, k, l, post1.Get(lmld1[k]), post2.Get(lmld2[l]));
    }
  }

  /** Equal arguments give equal cells (a bridge between differently computed indices). */
  lemma {:induction false} SameCell<L>(p: Problem<L>, lm1: nat, j: nat, lm2: nat, i: nat, j': nat, i': nat)
    requires Window(p.x1, lm1, j) && Window(p.x2, lm2, i) && j == j' && i == i'
    ensures Cell(p, lm1, j, lm2, i) == Cell(p, lm1, j', lm2, i')
  {
  }

  /** A cell that spans a subtree pair is that pair's memo entry. */
  lemma {:induction false} SpansCell<L>(p: Problem<L>, lm1: nat, j: nat, lm2: nat, i: nat, k: nat, l: nat)
    requires Window(p.x1, lm1, j) && Window(p.x2, lm2, i) && i > 0 && j > 0
    requires k == lm1 + j - 1 && l == lm2 + i - 1 && Spans(p, lm1, k, lm2, l)
    ensures TreeCell(p, k, l) == Cell(p, lm1, j, lm2, i)
  {
    assert p.x1.lmld[k] == lm1 && p.x2.lmld[l] == lm2;
    assert TreeCell(p, k, l) == Cell(p, lm1, k + 1 - lm1, lm2, l + 1 - lm2);
    SameCell(p, lm1, k + 1 - lm1, lm2, l + 1 - lm2, j, i);
  }

  lemma {:induction false} RenamingSpans<L>(p: Problem<L>, lm1: nat, j: nat, lm2: nat, i: nat, k: nat, l: nat)
    requires Window(p.x1, lm1, j) && Window(p.x2, lm2, i) && i > 0 && j > 0
    requires k == lm1 + j - 1 && l == lm2 + i - 1 && Spans(p, lm1, k, lm2, l)
    ensures Renaming(p, lm1, j, lm2, i)
         == OpStep(Rename, p.x1.nodes[k], Some(p.x2.nodes[l]), Cell(p, lm1, j - 1, lm2, i - 1), p.cost)
  {
  }

  lemma {:induction false} RenamingReuse<L>(p: Problem<L>, lm1: nat, j: nat, lm2: nat, i: nat, k: nat, l: nat)
    requires Window(p.x1, lm1, j) && Window(p.x2, lm2, i) && i > 0 && j > 0
    requires k == lm1 + j - 1 && l == lm2 + i - 1 && !Spans(p, lm1, k, lm2, l)
    ensures lm1 <= k && lm2 <= l && Window(p.x1, lm1, k + 1 - lm1) && Window(p.x2, lm2, l + 1 - lm2)
    ensures Renaming(p, lm1, j, lm2, i) == Reuse(p, lm1, lm2, k, l)
  {
  }

  /** The subtree pair's cell, with the leftmost leaves given by name. */
  lemma {:induction false} TreeCellIs<L>(p: Problem<L>, k: nat, l: nat, s1: nat, s2: nat)
    requires Valid(p.x1) && Valid(p.x2) && k < |p.x1.nodes| && l < |p.x2.nodes|
    requires s1 == p.x1.lmld[k] && s2 == p.x2.lmld[l]
    ensures s1 <= k && s2 <= l && Window(p.x1, s1, k + 1 - s1) && Window(p.x2, s2, l + 1 - s2)
    ensures TreeCell(p, k, l) == Cell(p, s1, k + 1 - s1, s2, l + 1 - s2)
  {
  }

  lemma {:induction false} ReuseIs<L>(p: Problem<L>, lm1: nat, lm2: nat, k: nat, l: nat, s1: nat, s2: nat)
    requires lm1 <= k && lm2 <= l && Window(p.x1, lm1, k + 1 - lm1) && Window(p.x2, lm2, l + 1 - lm2)
    requires !Spans(p, lm1, k, lm2, l) && s1 == p.x1.lmld[k] && s2 == p.x2.lmld[l]
    ensures lm1 <= s1 && lm2 <= s2 && Window(p.x1, lm1, s1 - lm1) && Window(p.x2, lm2, s2 - lm2)
    ensures Reuse(p, lm1, lm2, k, l)
         == TreeStep(TreeCell(p, k, l), p.x1.nodes[k], p.x2.nodes[l], Cell(p, lm1, s1 - lm1, lm2, s2 - lm2))
  {
    assert lm1 <= s1 <= k && lm2 <= s2 <= l;
    SameCell(p, lm1, p.x1.lmld[k] - lm1, lm2, p.x2.lmld[l] - lm2, s1 - lm1, s2 - lm2);
  }

  /** A cell off row and column 0 is the cheapest of its three candidates. */
  lemma {:induction false} CellAt<L>(p: Problem<L>, lm1: nat, j: nat, lm2: nat, i: nat, k: nat, l: nat,
                  ins: Trail<L>, del: Trail<L>, ren: Trail<L>)
    requires Window(p.x1, lm1, j) && Window(p.x2, lm2, i) && i > 0 && j > 0
    requires k == lm1 + j - 1 && l == lm2 + i - 1
    requires ins == InsertStep(p, l, Cell(p, lm1, j, lm2, i - 1))
    requires del == DeleteStep(p, k, Cell(p, lm1, j - 1, lm2, i))
    requires ren == Renaming(p, lm1, j, lm2, i)
    ensures Cell(p, lm1, j, lm2, i) == Cheapest(ins, del, ren)
  {
    assert Cell(p, lm1, j, lm2, i) == Interior(p, lm1, j, lm2, i);
  }
}
