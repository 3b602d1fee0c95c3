/**
 * Forest trails: the cells of the forest-distance tables. A trail is one edit step with
 * its own cost, a back-link to the cell it extends, and, for a reused subtree, the
 * subtree's own trail. Costs are natural numbers with an explicit infinity, the cost
 * given to deleting a tree's root.
 */
module Trails {
  import opened Wrappers
  import opened Operations
  import opened Trees

  datatype Cost = Fin(n: nat) | Inf

  function Plus(a: Cost, b: Cost): Cost
  {
    if a.Inf? || b.Inf? then Inf else Fin(a.n + b.n)
  }

  /** The ordering of costs: infinity is cheaper than nothing, every finite cost is cheaper than it. */
  predicate Cheaper(a: Cost, b: Cost)
  {
    a.Fin? && (b.Inf? || a.n < b.n)
  }

  /**
   * The empty-forest cell `Origin` ends every chain. A `Step` records the operation, the
   * step's own cost, the node it acts on and the other node involved, the cell it extends
   * (`next`) and, for a rename that reuses a whole-subtree result, that result (`tree`).
   */
  datatype Trail<L> =
    | Origin
    | Step(op: TreeOperation, cost: Cost, first: Tree<L>, second: Option<Tree<L>>,
           next: Trail<L>, tree: Option<Trail<L>>)

  /** The step's own cost plus the total of the cell it extends. */
  function TotalCost<L>(t: Trail<L>): Cost
  {
    if t.Origin? then Fin(0) else Plus(t.cost, TotalCost(t.next))
  }

  /** The own costs along the chain of back-links, nearest first. */
  function Costs<L>(t: Trail<L>): seq<Cost>
  {
    if t.Origin? then [] else [t.cost] + Costs(t.next)
  }

  /** The operations along the chain of back-links, nearest first. */
  function Ops<L>(t: Trail<L>): seq<TreeOperation>
  {
    if t.Origin? then [] else [t.op] + Ops(t.next)
  }

  function Sum(cs: seq<Cost>): Cost
  {
    if cs == [] then Fin(0) else Plus(cs[0], Sum(cs[1..]))
  }

  /** The total cost is the sum of the own costs along the chain; it is infinite exactly when one of them is. */
  lemma {:induction false} TotalCostIsSum<L>(t: Trail<L>)
    ensures TotalCost(t) == Sum(Costs(t))
    ensures TotalCost(t).Inf? <==> Inf in Costs(t)
  {
    if t.Step? {
      TotalCostIsSum(t.next);
      assert Costs(t)[1..] == Costs(t.next);
    }
  }

  /** A step for an edit of `first` (against `second`), costed by the label cost function. */
  function OpStep<L>(op: TreeOperation, first: Tree<L>, second: Option<Tree<L>>, next: Trail<L>,
                     cost: CostFn<L>): (r: Trail<L>)
    ensures r.Step? && r.op == op && r.tree.None? && r.next == next
    ensures r.cost == Fin(cost(first.lbl, op, if second.Some? then Some(second.value.lbl) else None))
  {
    Step(op, Fin(TransformationCost(first, op, second, cost)), first, second, next, None)
  }

  /** A rename of `first` into `second` that reuses the whole-subtree trail `tree`. */
  function TreeStep<L>(tree: Trail<L>, first: Tree<L>, second: Tree<L>, next: Trail<L>): (r: Trail<L>)
    ensures r.Step? && r.op == Rename && r.tree == Some(tree) && r.next == next
  {
    Step(Rename, TotalCost(tree), first, Some(second), next, Some(tree))
  }

  /**
   * A reused-subtree rename costs what the reused trail costs in total, so the whole step
   * costs that total plus the cell it extends.
   */
  lemma {:induction false} TreeStepCost<L>(tree: Trail<L>, first: Tree<L>, second: Tree<L>, next: Trail<L>)
    ensures TreeStep(tree, first, second, next).cost == TotalCost(tree)
    ensures TotalCost(TreeStep(tree, first, second, next)) == Plus(TotalCost(tree), TotalCost(next))
  {
  }

  /**
   * The shape facts the edit-script walk relies on: an insert under a parent inserts one of
   * the parent's children, a rename names its target, and a reused-subtree rename costs
   * the reused trail's total; all of it down the chain and inside reused trails.
   */
  ghost predicate WellFormed<L>(t: Trail<L>)
  {
    t.Step? ==>
      && (t.op == Insert && t.second.Some? ==> t.first in t.second.value.children)
      && (t.op == Rename ==> t.second.Some?)
      && (t.tree.Some? ==> t.op == Rename && t.cost == TotalCost(t.tree.value) && WellFormed(t.tree.value))
      && WellFormed(t.next)
  }

  /** A reused-subtree rename over well-formed trails is well formed. */
  lemma {:induction false} TreeStepWellFormed<L>(tree: Trail<L>, first: Tree<L>, second: Tree<L>, next: Trail<L>)
    requires WellFormed(tree) && WellFormed(next)
    ensures WellFormed(TreeStep(tree, first, second, next))
  {
    var r := TreeStep(tree, first, second, next);
    assert r.cost == TotalCost(tree);
  }

  /** The same step made infinitely expensive (a delete of a root). */
  function Blocked<L>(t: Trail<L>): (r: Trail<L>)
    requires t.Step?
    ensures r.Step? && r.cost == Inf && TotalCost(r) == Inf
    ensures r.(cost := t.cost) == t
  {
    t.(cost := Inf)
  }

  /**
   * The cheapest of an insert, a delete and a rename candidate, scanning in that order and
   * replacing the current best only by a strictly cheaper one.
   */
  function Cheapest<L>(ins: Trail<L>, del: Trail<L>, ren: Trail<L>): Trail<L>
  {
    var best := if Cheaper(TotalCost(del), TotalCost(ins)) then del else ins;
    if Cheaper(TotalCost(ren), TotalCost(best)) then ren else best
  }

  /**
   * The cheapest is one of the candidates and no candidate undercuts it; a delete is taken
   * only when strictly cheaper than the insert, and a rename only when strictly cheaper
   * than both, so ties go to the earliest.
   */
  lemma {:induction false} CheapestOfThree<L>(ins: Trail<L>, del: Trail<L>, ren: Trail<L>)
    ensures var r := Cheapest(ins, del, ren);
      (r == ins || r == del || r == ren)
      && !Cheaper(TotalCost(ins), TotalCost(r)) && !Cheaper(TotalCost(del), TotalCost(r))
      && !Cheaper(TotalCost(ren), TotalCost(r))
      && (r != ins ==> Cheaper(TotalCost(r), TotalCost(ins)))
      && (r != ins && r != del ==> Cheaper(TotalCost(r), TotalCost(del)))
  {
  }
}
