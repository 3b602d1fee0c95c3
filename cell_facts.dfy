/**
 * What the cells of a forest table are (Sources/TreeDistance/TreeDistance.swift,
 * `forestDistance`): row 0 and column 0 are chains of deletes and inserts, every other cell
 * is the cheapest of its three candidates, a pair of whole trees is at a finite distance,
 * and a tree is at distance zero from itself when renaming a label to itself is free.
 */
module CellFacts {
  import opened Wrappers
  import opened Operations
  import opened Trees
  import opened Trails
  import opened ForestDistances

  /** Column 0: the `i` nodes of the second forest inserted one by one, at a finite cost. */
  lemma {:induction false} InsertColumn<L>(p: Problem<L>, lm1: nat, lm2: nat, i: nat)
    requires Window(p.x1, lm1, 0) && Window(p.x2, lm2, i)
    ensures Ops(Cell(p, lm1, 0, lm2, i)) == seq(i, _ => Insert)
    ensures TotalCost(Cell(p, lm1, 0, lm2, i)).Fin?
    ensures i == 0 ==> TotalCost(Cell(p, lm1, 0, lm2, i)) == Fin(0)
    decreases i
  {
    if i > 0 {
      InsertColumn(p, lm1, lm2, i - 1);
    }
  }

  /**
   * Row 0: the `j` nodes of the first forest deleted one by one; the cost is infinite
   * exactly when the forest reaches the root of the first tree, whose delete is ruled out.
   */
  lemma {:induction false} DeleteRow<L>(p: Problem<L>, lm1: nat, j: nat, lm2: nat)
    requires Window(p.x1, lm1, j) && Window(p.x2, lm2, 0)
    ensures Ops(Cell(p, lm1, j, lm2, 0)) == seq(j, _ => Delete)
    ensures TotalCost(Cell(p, lm1, j, lm2, 0)).Inf? <==> j > 0 && lm1 + j == |p.x1.nodes|
    decreases j
  {
    if j > 0 {
      DeleteRow(p, lm1, j - 1, lm2);
      var k := lm1 + j - 1;
      assert p.x1.parent[k].None? <==> k == |p.x1.nodes| - 1;
    }
  }

  /**
   * A cell off row and column 0 is one of its insert, delete and rename candidates, none of
   * them is cheaper, and ties go to the insert, then to the delete.
   */
  lemma {:induction false} CellIsCheapest<L>(p: Problem<L>, lm1: nat, j: nat, lm2: nat, i: nat)
    requires Window(p.x1, lm1, j) && Window(p.x2, lm2, i) && i > 0 && j > 0
    ensures var c := Cell(p, lm1, j, lm2, i);
      var ins := InsertStep(p, lm2 + i - 1, Cell(p, lm1, j, lm2, i - 1));
      var del := DeleteStep(p, lm1 + j - 1, Cell(p, lm1, j - 1, lm2, i));
      var ren := Renaming(p, lm1, j, lm2, i);
      && (c == ins || c == del || c == ren)
      && !Cheaper(TotalCost(ins), TotalCost(c)) && !Cheaper(TotalCost(del), TotalCost(c))
      && !Cheaper(TotalCost(ren), TotalCost(c))
      && (c != ins ==> Cheaper(TotalCost(c), TotalCost(ins)))
      && (c != ins && c != del ==> Cheaper(TotalCost(c), TotalCost(del)))
  {
    var k, l := lm1 + j - 1, lm2 + i - 1;
    var ins := InsertStep(p, l, Cell(p, lm1, j, lm2, i - 1));
    var del := DeleteStep(p, k, Cell(p, lm1, j - 1, lm2, i));
    var ren := Renaming(p, lm1, j, lm2, i);
    CellAt(p, lm1, j, lm2, i, k, l, ins, del, ren);
    CheapestOfThree(ins, del, ren);
  }

  /** Forests that leave out the root of the first tree are at a finite distance. */
  lemma {:induction false} RootlessFinite<L>(p: Problem<L>, lm1: nat, j: nat, lm2: nat, i: nat)
    requires Window(p.x1, lm1, j) && Window(p.x2, lm2, i) && lm1 + j < |p.x1.nodes|
    ensures TotalCost(Cell(p, lm1, j, lm2, i)).Fin?
    decreases i + j
  {
    if i == 0 {
      DeleteRow(p, lm1, j, lm2);
    } else if j == 0 {
      InsertColumn(p, lm1, lm2, i);
    } else {
      RootlessFinite(p, lm1, j, lm2, i - 1);
      CellIsCheapest(p, lm1, j, lm2, i);
    }
  }

  /** The cell of the two whole trees is the forest table of the roots, spanning both trees. */
  lemma {:induction false} RootCell<L>(p: Problem<L>)
    requires Valid(p.x1) && Valid(p.x2)
    ensures Window(p.x1, 0, |p.x1.nodes|) && Window(p.x2, 0, |p.x2.nodes|)
    ensures TreeCell(p, |p.x1.nodes| - 1, |p.x2.nodes| - 1) == Cell(p, 0, |p.x1.nodes|, 0, |p.x2.nodes|)
  {
  }

  /** The distance between the two whole trees is finite: rename root into root, and edit below. */
  lemma {:induction false} DistanceFinite<L>(p: Problem<L>)
    requires Valid(p.x1) && Valid(p.x2)
    ensures TotalCost(TreeCell(p, |p.x1.nodes| - 1, |p.x2.nodes| - 1)).Fin?
  {
    var n1, n2 := |p.x1.nodes|, |p.x2.nodes|;
    RootCell(p);
    RenamingSpans(p, 0, n1, 0, n2, n1 - 1, n2 - 1);
    RootlessFinite(p, 0, n1 - 1, 0, n2 - 1);
    CellIsCheapest(p, 0, n1, 0, n2);
  }

  /** Renaming a label into itself is free. */
  ghost predicate FreeSelfRename<L(!new)>(cost: CostFn<L>)
  {
    forall a :: cost(a, Rename, Some(a)) == 0
  }

  /** A forest is at distance zero from itself when renaming a label into itself is free. */
  lemma {:induction false} DiagonalZero<L(!new)>(p: Problem<L>, lm: nat, j: nat)
    requires p.x1 == p.x2 && Window(p.x1, lm, j) && FreeSelfRename(p.cost)
    ensures TotalCost(Cell(p, lm, j, lm, j)) == Fin(0)
    decreases j, 2
  {
    if j > 0 {
      RenameFree(p, lm, j);
      CellIsCheapest(p, lm, j, lm, j);
    }
  }

  /** Renaming the last node of a forest into itself costs nothing in total. */
  lemma {:induction false} RenameFree<L(!new)>(p: Problem<L>, lm: nat, j: nat)
    requires p.x1 == p.x2 && Window(p.x1, lm, j) && FreeSelfRename(p.cost) && j > 0
    ensures TotalCost(Renaming(p, lm, j, lm, j)) == Fin(0)
    decreases j, 1
  {
    var k := lm + j - 1;
    if Spans(p, lm, k, lm, k) {
      RenamingSpans(p, lm, j, lm, j, k, k);
      DiagonalZero(p, lm, j - 1);
    } else {
      ReuseFree(p, lm, j);
    }
  }

  /**
   * When the last node of a forest is not its whole subtree, renaming it into itself reuses
   * the subtree's own result and the forest left of it, both free.
   */
  lemma {:induction false} ReuseFree<L(!new)>(p: Problem<L>, lm: nat, j: nat)
    requires p.x1 == p.x2 && Window(p.x1, lm, j) && FreeSelfRename(p.cost) && j > 0
    requires !Spans(p, lm, lm + j - 1, lm, lm + j - 1)
    ensures TotalCost(Renaming(p, lm, j, lm, j)) == Fin(0)
    decreases j, 0
  {
    var k := lm + j - 1;
    RenamingReuse(p, lm, j, lm, j, k, k);
    var s := p.x1.lmld[k];
    ReuseIs(p, lm, lm, k, k, s, s);
    var tree, left := TreeCell(p, k, k), Cell(p, lm, s - lm, lm, s - lm);
    assert Renaming(p, lm, j, lm, j) == TreeStep(tree, p.x1.nodes[k], p.x2.nodes[k], left);
    TreeStepCost(tree, p.x1.nodes[k], p.x2.nodes[k], left);
    SubtreeFree(p, k);
    DiagonalZero(p, lm, s - lm);
  }

  /** A subtree is at distance zero from itself when renaming a label into itself is free. */
  lemma {:induction false} SubtreeFree<L(!new)>(p: Problem<L>, k: nat)
    requires p.x1 == p.x2 && Valid(p.x1) && FreeSelfRename(p.cost) && k < |p.x1.nodes|
    ensures TotalCost(TreeCell(p, k, k)) == Fin(0)
    decreases k + 1 - p.x1.lmld[k], 3
  {
    var s := p.x1.lmld[k];
    TreeCellIs(p, k, k, s, s);
    DiagonalZero(p, s, k + 1 - s);
  }

  /** A tree is at distance zero from itself when renaming a label into itself is free. */
  lemma {:induction false} SelfDistanceZero<L(!new)>(p: Problem<L>)
    requires p.x1 == p.x2 && Valid(p.x1) && FreeSelfRename(p.cost)
    ensures TotalCost(TreeCell(p, |p.x1.nodes| - 1, |p.x1.nodes| - 1)) == Fin(0)
  {
    SubtreeFree(p, |p.x1.nodes| - 1);
  }

  /** Every node of the tree is one of its parent's children. */
  ghost predicate ParentLinks<L>(x: Indexed<L>)
  {
    Valid(x) && forall l :: 0 <= l < |x.parent| && x.parent[l].Some? ==> x.nodes[l] in x.nodes[x.parent[l].value].children
  }

  /** A tree's postorder view links every node to its parent. */
  lemma {:induction false} IndexedOfLinks<L>(t: Tree<L>)
    ensures ParentLinks(IndexedOf(t))
  {
    IndexedOfValid(t);
    forall l | 0 <= l < Size(t) && Parents(t)[l].Some?
      ensures Post(t)[l] in Post(t)[Parents(t)[l].value].children
    {
      ParentsLayout(t, l);
    }
  }

  /** Every cell is a well-formed trail. */
  lemma {:induction false} CellWellFormed<L>(p: Problem<L>, lm1: nat, j: nat, lm2: nat, i: nat)
    requires Window(p.x1, lm1, j) && Window(p.x2, lm2, i) && ParentLinks(p.x2)
    ensures WellFormed(Cell(p, lm1, j, lm2, i))
    decreases i + j, 3
  {
    if i == 0 && j == 0 {
    } else if j == 0 {
      CellWellFormed(p, lm1, 0, lm2, i - 1);
      InsertStepWellFormed(p, lm2 + i - 1, Cell(p, lm1, 0, lm2, i - 1));
    } else if i == 0 {
      CellWellFormed(p, lm1, j - 1, lm2, 0);
      DeleteStepWellFormed(p, lm1 + j - 1, Cell(p, lm1, j - 1, lm2, 0));
    } else {
      InteriorWellFormed(p, lm1, j, lm2, i);
    }
  }

  /** An interior cell is the cheapest of three well-formed candidates. */
  lemma {:induction false} InteriorWellFormed<L>(p: Problem<L>, lm1: nat, j: nat, lm2: nat, i: nat)
    requires Window(p.x1, lm1, j) && Window(p.x2, lm2, i) && i > 0 && j > 0 && ParentLinks(p.x2)
    ensures WellFormed(Cell(p, lm1, j, lm2, i))
    decreases i + j, 2
  {
    var ins := InsertStep(p, lm2 + i - 1, Cell(p, lm1, j, lm2, i - 1));
    var del := DeleteStep(p, lm1 + j - 1, Cell(p, lm1, j - 1, lm2, i));
    var ren := Renaming(p, lm1, j, lm2, i);
    CellWellFormed(p, lm1, j, lm2, i - 1);
    InsertStepWellFormed(p, lm2 + i - 1, Cell(p, lm1, j, lm2, i - 1));
    CellWellFormed(p, lm1, j - 1, lm2, i);
    DeleteStepWellFormed(p, lm1 + j - 1, Cell(p, lm1, j - 1, lm2, i));
    RenamingWellFormed(p, lm1, j, lm2, i);
    assert Cell(p, lm1, j, lm2, i) == Cheapest(ins, del, ren);
    CheapestWellFormed(ins, del, ren);
  }

  /** The cheapest of well-formed candidates is well formed. */
  lemma {:induction false} CheapestWellFormed<L>(ins: Trail<L>, del: Trail<L>, ren: Trail<L>)
    requires WellFormed(ins) && WellFormed(del) && WellFormed(ren)
    ensures WellFormed(Cheapest(ins, del, ren))
  {
  }

  /** Inserting a node of the second tree under its parent is well formed. */
  lemma {:induction false} InsertStepWellFormed<L>(p: Problem<L>, l: nat, next: Trail<L>)
    requires ParentLinks(p.x2) && l < |p.x2.nodes| && WellFormed(next)
    ensures WellFormed(InsertStep(p, l, next))
  {
  }

  /** Deleting a node of the first tree is well formed. */
  lemma {:induction false} DeleteStepWellFormed<L>(p: Problem<L>, k: nat, next: Trail<L>)
    requires Valid(p.x1) && k < |p.x1.nodes| && WellFormed(next)
    ensures WellFormed(DeleteStep(p, k, next))
  {
  }

  lemma {:induction false} RenamingWellFormed<L>(p: Problem<L>, lm1: nat, j: nat, lm2: nat, i: nat)
    requires Window(p.x1, lm1, j) && Window(p.x2, lm2, i) && i > 0 && j > 0 && ParentLinks(p.x2)
    ensures WellFormed(Renaming(p, lm1, j, lm2, i))
    decreases i + j, 1
  {
    var k, l := lm1 + j - 1, lm2 + i - 1;
    if Spans(p, lm1, k, lm2, l) {
      RenamingSpans(p, lm1, j, lm2, i, k, l);
      CellWellFormed(p, lm1, j - 1, lm2, i - 1);
    } else {
      RenamingReuse(p, lm1, j, lm2, i, k, l);
      ReuseWellFormed(p, lm1, lm2, k, l);
    }
  }

  lemma {:induction false} ReuseWellFormed<L>(p: Problem<L>, lm1: nat, lm2: nat, k: nat, l: nat)
    requires lm1 <= k && lm2 <= l && Window(p.x1, lm1, k + 1 - lm1) && Window(p.x2, lm2, l + 1 - lm2)
    requires !Spans(p, lm1, k, lm2, l) && ParentLinks(p.x2)
    ensures WellFormed(Reuse(p, lm1, lm2, k, l))
    decreases k + 1 - lm1 + l + 1 - lm2, 0
  {
    var s1, s2 := p.x1.lmld[k], p.x2.lmld[l];
    ReuseIs(p, lm1, lm2, k, l, s1, s2);
    var tree, next := TreeCell(p, k, l), Cell(p, lm1, s1 - lm1, lm2, s2 - lm2);
    CellWellFormed(p, s1, k + 1 - s1, s2, l + 1 - s2);
    CellWellFormed(p, lm1, s1 - lm1, lm2, s2 - lm2);
    TreeStepWellFormed(tree, p.x1.nodes[k], p.x2.nodes[l], next);
  }

  // ---------------------------------------------------------------------------
  // Forests of the same shape.

  /** Two postorder views of the same shape: as many nodes, with the same leftmost leaves. */
  ghost predicate Alike<L>(p: Problem<L>)
  {
    Valid(p.x1) && Valid(p.x2) && |p.x1.nodes| == |p.x2.nodes| && p.x1.lmld == p.x2.lmld
  }

  /** The cost of renaming each node of the first tree in `[lo, hi)` into the node at the same index of the second. */
  function RenameSum<L>(p: Problem<L>, lo: nat, hi: nat): nat
    requires lo <= hi <= |p.x1.nodes| && hi <= |p.x2.nodes|
    decreases hi - lo
  {
    if lo == hi then 0
    else RenameSum(p, lo, hi - 1) + TransformationCost(p.x1.nodes[hi - 1], Rename, Some(p.x2.nodes[hi - 1]), p.cost)
  }

  lemma {:induction false} RenameSumSplit<L>(p: Problem<L>, lo: nat, mid: nat, hi: nat)
    requires lo <= mid <= hi <= |p.x1.nodes| && hi <= |p.x2.nodes|
    ensures RenameSum(p, lo, hi) == RenameSum(p, lo, mid) + RenameSum(p, mid, hi)
    decreases hi - mid
  {
    if mid < hi {
      RenameSumSplit(p, lo, mid, hi - 1);
    }
  }

  /**
   * A forest is at most the sum of its renames away from the forest of the same shape at
   * the same indices: renaming node by node is one candidate script.
   */
  lemma {:induction false} DiagonalBound<L>(p: Problem<L>, lm: nat, j: nat)
    requires Alike(p) && Window(p.x1, lm, j)
    ensures Window(p.x2, lm, j)
    ensures TotalCost(Cell(p, lm, j, lm, j)).Fin? && TotalCost(Cell(p, lm, j, lm, j)).n <= RenameSum(p, lm, lm + j)
    decreases j, 2
  {
    if j > 0 {
      RenameBound(p, lm, j);
      CellIsCheapest(p, lm, j, lm, j);
    }
  }

  /** Renaming the last node of a forest into its counterpart costs at most the sum of the renames. */
  lemma {:induction false} RenameBound<L>(p: Problem<L>, lm: nat, j: nat)
    requires Alike(p) && Window(p.x1, lm, j) && Window(p.x2, lm, j) && j > 0
    ensures TotalCost(Renaming(p, lm, j, lm, j)).Fin? && TotalCost(Renaming(p, lm, j, lm, j)).n <= RenameSum(p, lm, lm + j)
    decreases j, 1
  {
    var k := lm + j - 1;
    if Spans(p, lm, k, lm, k) {
      RenamingSpans(p, lm, j, lm, j, k, k);
      DiagonalBound(p, lm, j - 1);
    } else {
      ReuseBound(p, lm, j);
    }
  }

  /**
   * When the last node of a forest is not its whole subtree, the reused subtree result and
   * the forest left of it together cost at most the renames of both.
   */
  lemma {:induction false} ReuseBound<L>(p: Problem<L>, lm: nat, j: nat)
    requires Alike(p) && Window(p.x1, lm, j) && Window(p.x2, lm, j) && j > 0
    requires !Spans(p, lm, lm + j - 1, lm, lm + j - 1)
    ensures TotalCost(Renaming(p, lm, j, lm, j)).Fin? && TotalCost(Renaming(p, lm, j, lm, j)).n <= RenameSum(p, lm, lm + j)
    decreases j, 0
  {
    var k := lm + j - 1;
    RenamingReuse(p, lm, j, lm, j, k, k);
    var s := p.x1.lmld[k];
    ReuseIs(p, lm, lm, k, k, s, s);
    var tree, left := TreeCell(p, k, k), Cell(p, lm, s - lm, lm, s - lm);
    TreeStepCost(tree, p.x1.nodes[k], p.x2.nodes[k], left);
    SubtreeBound(p, k);
    DiagonalBound(p, lm, s - lm);
    RenameSumSplit(p, lm, s, k + 1);
  }

  /** A subtree is at most the sum of its renames away from the subtree at the same index. */
  lemma {:induction false} SubtreeBound<L>(p: Problem<L>, k: nat)
    requires Alike(p) && k < |p.x1.nodes|
    ensures TotalCost(TreeCell(p, k, k)).Fin?
    ensures TotalCost(TreeCell(p, k, k)).n <= RenameSum(p, p.x1.lmld[k], k + 1)
    decreases k + 1 - p.x1.lmld[k], 3
  {
    var s := p.x1.lmld[k];
    TreeCellIs(p, k, k, s, s);
    DiagonalBound(p, s, k + 1 - s);
  }

  /** With equal labels at every index of `[lo, hi)` and free self-renames, the renames cost nothing. */
  lemma {:induction false} RenameSumZero<L(!new)>(p: Problem<L>, lo: nat, hi: nat)
    requires lo <= hi <= |p.x1.nodes| && hi <= |p.x2.nodes| && FreeSelfRename(p.cost)
    requires forall k :: lo <= k < hi ==> p.x1.nodes[k].lbl == p.x2.nodes[k].lbl
    ensures RenameSum(p, lo, hi) == 0
    decreases hi - lo
  {
    if lo < hi {
      RenameSumZero(p, lo, hi - 1);
      var a := p.x1.nodes[hi - 1].lbl;
      assert p.cost(a, Rename, Some(a)) == 0;
    }
  }

  // ---------------------------------------------------------------------------
  // Where the steps of a cell come from.

  /**
   * Every plain step is priced by the label cost function (or blocked), and every rename
   * renames a node of the first tree into a node of the second; down the chain and inside
   * reused trails.
   */
  ghost predicate Sourced<L>(p: Problem<L>, t: Trail<L>)
  {
    t.Step? ==>
      && (t.tree.None? ==> t.cost == Inf || t.cost == Fin(TransformationCost(t.first, t.op, t.second, p.cost)))
      && (t.op == Rename ==> t.first in p.x1.nodes && t.second.Some? && t.second.value in p.x2.nodes)
      && (t.tree.Some? ==> Sourced(p, t.tree.value))
      && Sourced(p, t.next)
  }

  /** Every cell's steps are priced by the cost function and rename first-tree nodes into second-tree nodes. */
  lemma {:induction false} CellSourced<L>(p: Problem<L>, lm1: nat, j: nat, lm2: nat, i: nat)
    requires Window(p.x1, lm1, j) && Window(p.x2, lm2, i)
    ensures Sourced(p, Cell(p, lm1, j, lm2, i))
    decreases i + j, 3
  {
    if i == 0 && j == 0 {
    } else if j == 0 {
      CellSourced(p, lm1, 0, lm2, i - 1);
    } else if i == 0 {
      CellSourced(p, lm1, j - 1, lm2, 0);
    } else {
      InteriorSourced(p, lm1, j, lm2, i);
    }
  }

  lemma {:induction false} InteriorSourced<L>(p: Problem<L>, lm1: nat, j: nat, lm2: nat, i: nat)
    requires Window(p.x1, lm1, j) && Window(p.x2, lm2, i) && i > 0 && j > 0
    ensures Sourced(p, Cell(p, lm1, j, lm2, i))
    decreases i + j, 2
  {
    var ins := InsertStep(p, lm2 + i - 1, Cell(p, lm1, j, lm2, i - 1));
    var del := DeleteStep(p, lm1 + j - 1, Cell(p, lm1, j - 1, lm2, i));
    var ren := Renaming(p, lm1, j, lm2, i);
    CellSourced(p, lm1, j, lm2, i - 1);
    CellSourced(p, lm1, j - 1, lm2, i);
    RenamingSourced(p, lm1, j, lm2, i);
    CellAt(p, lm1, j, lm2, i, lm1 + j - 1, lm2 + i - 1, ins, del, ren);
    CheapestOfThree(ins, del, ren);
  }

  lemma {:induction false} RenamingSourced<L>(p: Problem<L>, lm1: nat, j: nat, lm2: nat, i: nat)
    requires Window(p.x1, lm1, j) && Window(p.x2, lm2, i) && i > 0 && j > 0
    ensures Sourced(p, Renaming(p, lm1, j, lm2, i))
    decreases i + j, 1
  {
    var k, l := lm1 + j - 1, lm2 + i - 1;
    if Spans(p, lm1, k, lm2, l) {
      RenamingSpans(p, lm1, j, lm2, i, k, l);
      CellSourced(p, lm1, j - 1, lm2, i - 1);
    } else {
      RenamingReuse(p, lm1, j, lm2, i, k, l);
      ReuseSourced(p, lm1, lm2, k, l);
    }
  }

  lemma {:induction false} ReuseSourced<L>(p: Problem<L>, lm1: nat, lm2: nat, k: nat, l: nat)
    requires lm1 <= k && lm2 <= l && Window(p.x1, lm1, k + 1 - lm1) && Window(p.x2, lm2, l + 1 - lm2)
    requires !Spans(p, lm1, k, lm2, l)
    ensures Sourced(p, Reuse(p, lm1, lm2, k, l))
    decreases k + 1 - lm1 + l + 1 - lm2, 0
  {
    var s1, s2 := p.x1.lmld[k], p.x2.lmld[l];
    ReuseIs(p, lm1, lm2, k, l, s1, s2);
    TreeCellIs(p, k, l, s1, s2);
    CellSourced(p, s1, k + 1 - s1, s2, l + 1 - s2);
    CellSourced(p, lm1, s1 - lm1, lm2, s2 - lm2);
  }
}
