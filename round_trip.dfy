/**
 * Replaying a script of `treeDistance` with `transformTree` (Sources/TreeDistance/TreeDistance.swift),
 * for two trees that differ only in their node identities. Under a cost function that makes
 * inserts and deletes cost something and renames free only between equal labels, the
 * cheapest script of such trees costs nothing, so every edit in it renames a node of the
 * first tree into the node of the second carrying the same label. Replaying it changes
 * nothing: the first tree's root still holds the first tree, which has the second tree's
 * labels in the second tree's shape.
 */
module RoundTrips {
  import opened Wrappers
  import opened Operations
  import opened Trees
  import opened Trails
  import opened ForestDistances
  import opened CellFacts
  import opened TreeDistances
  import opened TreeNodes
  import opened EditScripts
  import opened Transforms
  import opened StringTrees

  /** Inserts and deletes always cost something, and a rename is free only between equal labels. */
  ghost predicate OnlySelfRenameFree<L(!new)>(cost: CostFn<L>)
  {
    && (forall a, o :: cost(a, Insert, o) > 0)
    && (forall a, o :: cost(a, Delete, o) > 0)
    && (forall a, b :: cost(a, Rename, Some(b)) == 0 ==> a == b)
  }

  /** The step renames a node of `n1` into a node of `n2` that carries the same label. */
  ghost predicate FreeRename<L>(s: Trail<L>, n1: seq<Tree<L>>, n2: seq<Tree<L>>)
  {
    && s.Step? && s.op == Rename && s.second.Some?
    && s.first in n1 && s.second.value in n2 && s.first.lbl == s.second.value.lbl
  }

  /** Every step renames a node of `n1` into a node of `n2` that carries the same label. */
  ghost predicate FreeRenames<L>(ss: seq<Trail<L>>, n1: seq<Tree<L>>, n2: seq<Tree<L>>)
  {
    forall i :: 0 <= i < |ss| ==> FreeRename(ss[i], n1, n2)
  }

  /** A plain step priced by the cost function (or blocked) that renames, if at all, a first-tree node into a second-tree node. */
  ghost predicate Priced<L>(p: Problem<L>, s: Trail<L>)
  {
    && s.Step? && s.tree.None?
    && (s.cost == Inf || s.cost == Fin(TransformationCost(s.first, s.op, s.second, p.cost)))
    && (s.op == Rename ==> s.first in p.x1.nodes && s.second.Some? && s.second.value in p.x2.nodes)
  }

  /** Every step a trail emits is priced and sourced as `Sourced` says of its plain steps. */
  lemma {:induction false} EmittedPriced<L>(p: Problem<L>, t: Trail<L>)
    requires Sourced(p, t)
    ensures forall i :: 0 <= i < |Emitted(t)| ==> Priced(p, Emitted(t)[i])
    decreases t
  {
    if t.Step? {
      var a := if t.tree.Some? then Emitted(t.next) else [t];
      var b := if t.tree.Some? then Emitted(t.tree.value) else Emitted(t.next);
      assert Emitted(t) == a + b;
      EmittedPriced(p, t.next);
      if t.tree.Some? {
        EmittedPriced(p, t.tree.value);
      }
      forall i | 0 <= i < |a + b| ensures Priced(p, (a + b)[i]) {
        if i < |a| {
          assert (a + b)[i] == a[i];
        } else {
          assert (a + b)[i] == b[i - |a|];
        }
      }
    }
  }

  /** A sum of costs is zero only when every cost is zero. */
  lemma {:induction false} SumZero(cs: seq<Cost>, i: nat)
    requires Sum(cs) == Fin(0) && i < |cs|
    ensures cs[i] == Fin(0)
    decreases i
  {
    var rest := cs[1..];
    assert Sum(cs) == Plus(cs[0], Sum(rest));
    if i > 0 {
      assert Sum(rest) == Fin(0);
      SumZero(rest, i - 1);
      assert rest[i - 1] == cs[i];
    }
  }

  /** A free priced step, under a cost function where only renames between equal labels are free, is such a rename. */
  lemma {:induction false} FreeStep<L(!new)>(p: Problem<L>, s: Trail<L>)
    requires Priced(p, s) && s.cost == Fin(0) && OnlySelfRenameFree(p.cost)
    ensures FreeRename(s, p.x1.nodes, p.x2.nodes)
  {
    var other := if s.second.Some? then Some(s.second.value.lbl) else None;
    assert p.cost(s.first.lbl, s.op, other) == 0;
  }

  /**
   * A trail that costs nothing in total, under a cost function where only renames between
   * equal labels are free, emits nothing but such renames.
   */
  lemma {:induction false} ZeroTrailRenames<L(!new)>(p: Problem<L>, t: Trail<L>)
    requires Sourced(p, t) && WellFormed(t) && TotalCost(t) == Fin(0) && OnlySelfRenameFree(p.cost)
    ensures FreeRenames(Emitted(t), p.x1.nodes, p.x2.nodes)
  {
    var ss := Emitted(t);
    EmittedCost(t);
    EmittedPriced(p, t);
    forall i | 0 <= i < |ss| ensures FreeRename(ss[i], p.x1.nodes, p.x2.nodes) {
      SumZero(StepCosts(ss), i);
      assert StepCosts(ss)[i] == ss[i].cost;
      FreeStep(p, ss[i]);
    }
  }

  lemma {:induction false} FreeRenamesConcat<L>(a: seq<Trail<L>>, b: seq<Trail<L>>, n1: seq<Tree<L>>, n2: seq<Tree<L>>)
    ensures FreeRenames(a + b, n1, n2) <==> FreeRenames(a, n1, n2) && FreeRenames(b, n1, n2)
  {
    if FreeRenames(a + b, n1, n2) {
      forall i | 0 <= i < |a| ensures a[i] == (a + b)[i] {
      }
      forall i | 0 <= i < |b| ensures b[i] == (a + b)[|a| + i] {
      }
    }
    if FreeRenames(a, n1, n2) && FreeRenames(b, n1, n2) {
      forall i | 0 <= i < |a + b| ensures (a + b)[i] == if i < |a| then a[i] else b[i - |a|] {
      }
    }
  }

  /** Walking a trail that emits only renames adds no node to the arena and changes none. */
  lemma {:induction false} SynthRenames<L>(t: Trail<L>, w: Walk<L>, n1: seq<Tree<L>>, n2: seq<Tree<L>>)
    requires WellFormed(t) && FreeRenames(Emitted(t), n1, n2)
    ensures var r := Synth(t, w);
      r.labels == w.labels && r.parents == w.parents && r.children == w.children && r.next == w.next
    decreases t
  {
    if t.Step? {
      if t.tree.Some? {
        FreeRenamesConcat(Emitted(t.next), Emitted(t.tree.value), n1, n2);
        SynthRenames(t.next, w, n1, n2);
        SynthRenames(t.tree.value, Synth(t.next, w), n1, n2);
      } else {
        FreeRenamesConcat([t], Emitted(t.next), n1, n2);
        assert ([t] + Emitted(t.next))[0] == t;
        var (w1, e) := Start(t, w);
        SynthRenames(t.next, w1.(edits := w1.edits + [e]), n1, n2);
      }
    }
  }

  /** The edit renames an arena node into an arena node that already carries the same label. */
  ghost predicate Idle<L>(g: Nodes<L>, e: Edit)
  {
    e.op == Rename && e.secondNode.Some? && e.firstNode in g.labels && e.secondNode.value in g.labels
    && g.labels[e.firstNode] == g.labels[e.secondNode.value]
  }

  /** Replaying renames onto labels the nodes already carry changes nothing, in any order. */
  lemma {:induction false} TransformIdle<L>(g: Nodes<L>, root: nat, edits: seq<Edit>)
    requires Linked(g) && root in g.labels && forall i :: 0 <= i < |edits| ==> Idle(g, edits[i])
    ensures Targets(g.labels.Keys, edits)
    ensures Transform(g, root, edits) == Some((g, root))
    decreases |edits|
  {
    if edits != [] {
      var init, e := edits[..|edits| - 1], edits[|edits| - 1];
      forall i | 0 <= i < |init| ensures Idle(g, init[i]) {
        assert init[i] == edits[i];
      }
      TransformIdle(g, root, init);
      assert g.labels[e.firstNode := g.labels[e.secondNode.value]] == g.labels;
      assert RenameNode(g, e.firstNode, e.secondNode.value) == g;
    }
  }

  /**
   * The edits a walk appends for renames between nodes of two trees the arena holds, with
   * equal labels, are idle renames.
   */
  lemma {:induction false} DescribedIdle<L>(es: seq<Edit>, ss: seq<Trail<L>>, t1: Tree<L>, t2: Tree<L>,
                                             g: Nodes<L>, labels: map<nat, L>, before: set<nat>)
    requires Described(es, 0, ss, labels, before) && |es| == |ss|
    requires FreeRenames(ss, Post(t1), Post(t2)) && Holds(g, t1) && Holds(g, t2)
    ensures forall i :: 0 <= i < |es| ==> Idle(g, es[i])
  {
    forall i | 0 <= i < |es| ensures Idle(g, es[i]) {
      var s := ss[i];
      assert Describes(es[i], s, labels, before);
      var k1 :| 0 <= k1 < Size(t1) && Post(t1)[k1] == s.first;
      var k2 :| 0 <= k2 < Size(t2) && Post(t2)[k2] == s.second.value;
      assert HoldsNode(g, Post(t1)[k1]) && HoldsNode(g, Post(t2)[k2]);
    }
  }

  /** A permutation of idle renames is idle. */
  lemma {:induction false} IdlePermuted<L>(g: Nodes<L>, es: seq<Edit>, edits: seq<Edit>)
    requires multiset(edits) == multiset(es) && forall i :: 0 <= i < |es| ==> Idle(g, es[i])
    ensures forall i :: 0 <= i < |edits| ==> Idle(g, edits[i])
  {
    forall i | 0 <= i < |edits| ensures Idle(g, edits[i]) {
      assert edits[i] in multiset(edits);
      assert edits[i] in es;
    }
  }

  /**
   * The script between two trees that differ only in their identities, read off by the
   * walk from an arena holding both, costs nothing, leaves the arena as it was, and replays,
   * in any order, to the arena it started from with the first tree's root as root: the
   * first tree, which carries the second tree's labels in its shape.
   */
  lemma {:induction false} CopyReplays<L(!new)>(t1: Tree<L>, t2: Tree<L>, cost: CostFn<L>, g: Nodes<L>, next: nat,
                                               edits: seq<Edit>)
    requires Copy(t1, t2) && FreeSelfRename(cost) && OnlySelfRenameFree(cost)
    requires Linked(g) && Holds(g, t1) && Holds(g, t2) && forall n :: n in g.labels ==> n < next
    requires WellFormed(DistanceTrail(t1, t2, cost))
    requires multiset(edits) == multiset(Synth(DistanceTrail(t1, t2, cost), Walk([], map[], g.labels, g.parents, g.children, next)).edits)
    ensures TotalCost(DistanceTrail(t1, t2, cost)) == Fin(0)
    ensures var w := Synth(DistanceTrail(t1, t2, cost), Walk([], map[], g.labels, g.parents, g.children, next));
      w.labels == g.labels && w.parents == g.parents && w.children == g.children && w.next == next
    ensures t1.id in g.labels && Targets(g.labels.Keys, edits)
    ensures Transform(g, t1.id, edits) == Some((g, t1.id))
  {
    var t := DistanceTrail(t1, t2, cost);
    var p := ProblemOf(t1, t2, cost);
    var w0 := Walk([], map[], g.labels, g.parents, g.children, next);
    CopyDistanceZero(t1, t2, cost);
    DistanceSourced(t1, t2, cost);
    ZeroTrailRenames(p, t);
    SynthRenames(t, w0, p.x1.nodes, p.x2.nodes);
    SynthDescribes(t, w0);
    var w := Synth(t, w0);
    DescribedIdle(w.edits, Emitted(t), t1, t2, g, w.labels, w0.labels.Keys);
    IdlePermuted(g, w.edits, edits);
    assert HoldsNode(g, Post(t1)[Size(t1) - 1]);
    TransformIdle(g, t1.id, edits);
  }

  /** The unit cost of the string trees makes inserts and deletes cost one and renames free only between equal labels. */
  lemma {:induction false} UnitOnlySelfRenameFree()
    ensures OnlySelfRenameFree(UnitCost)
  {
    forall a: string, b: string | UnitCost(a, Rename, Some(b)) == 0 ensures a == b {
      assert Some(b) == Some(a);
    }
  }

  /**
   * `run1(a, a)` of the transform tests: the script between two readings of one serialisation,
   * taken from an arena holding both, replays to the first reading unchanged, and that tree
   * serialises back to the string read.
   */
  lemma {:induction false} SameStringReplays(t: Tree<string>, a: nat, b: nat, g: Nodes<string>, next: nat,
                                             edits: seq<Edit>)
    requires Simple(t) && Parse(TreeString(t), a).Some? && Parse(TreeString(t), b).Some?
    requires var t1, t2 := Parse(TreeString(t), a).value, Parse(TreeString(t), b).value;
      && Linked(g) && Holds(g, t1) && Holds(g, t2) && (forall n :: n in g.labels ==> n < next)
      && WellFormed(DistanceTrail(t1, t2, UnitCost))
      && multiset(edits) == multiset(Synth(DistanceTrail(t1, t2, UnitCost), Walk([], map[], g.labels, g.parents, g.children, next)).edits)
    ensures var t1 := Parse(TreeString(t), a).value;
      Transform(g, t1.id, edits) == Some((g, t1.id)) && TreeString(t1) == TreeString(t)
  {
    var t1, t2 := Parse(TreeString(t), a).value, Parse(TreeString(t), b).value;
    SameStringDistanceZero(t, a, b);
    RoundTripString(t, a);
    UnitCostFreeSelfRename();
    UnitOnlySelfRenameFree();
    CopyReplays(t1, t2, UnitCost, g, next, edits);
  }
}
