/**
 * The edit script read off the winning trail (`applyForestTrails` and `edits.sort()` in
 * Sources/TreeDistance/TreeDistance.swift). Walking the back-links, every plain step
 * becomes one edit; a reused-subtree step instead contributes the edits of the cell it
 * extends followed by the edits of the reused subtree's own trail. Inserted nodes are
 * fresh clones in the node arena, and a map from second-tree nodes to their counterparts
 * (`matchedNodes`) supplies the parent of each insert and the nodes an insert adopts.
 */
module EditScripts {
  import opened Wrappers
  import opened Operations
  import opened Trees
  import opened Trails
  import opened TreeNodes
  import opened TreeDistances

  /**
   * One edit: the operation, its cost, the node it acts on and the other node involved
   * (as arena ids), and for inserts the position among the parent's children, the nodes
   * the inserted node adopts, and the parent's child count in the second tree.
   */
  datatype Edit = Edit(op: TreeOperation, cost: Cost, firstNode: nat, secondNode: Option<nat>,
                       position: Option<nat>, descendants: Option<seq<nat>>, childrenCount: Option<nat>)

  /**
   * The plain steps of a trail in the order the walk turns them into edits: a plain step
   * before the edits of the cell it extends; a reused-subtree step as the edits of the cell
   * it extends followed by those of the reused trail.
   */
  function Emitted<L>(t: Trail<L>): (r: seq<Trail<L>>)
    ensures forall s | s in r :: s.Step? && s.tree.None?
  {
    if t.Origin? then []
    else if t.tree.Some? then Emitted(t.next) + Emitted(t.tree.value)
    else [t] + Emitted(t.next)
  }

  function OwnCost<L>(s: Trail<L>): Cost
  {
    if s.Step? then s.cost else Fin(0)
  }

  /** The own costs of a list of steps. */
  function StepCosts<L>(ss: seq<Trail<L>>): (r: seq<Cost>)
    ensures |r| == |ss|
  {
    seq(|ss|, i requires 0 <= i < |ss| => OwnCost(ss[i]))
  }

  /** The costs of a list of edits. */
  function EditCosts(es: seq<Edit>): (r: seq<Cost>)
    ensures |r| == |es| && forall i :: 0 <= i < |es| ==> r[i] == es[i].cost
  {
    seq(|es|, i requires 0 <= i < |es| => es[i].cost)
  }

  lemma {:induction false} EditCostsAppend(a: seq<Edit>, b: seq<Edit>)
    ensures EditCosts(a + b) == EditCosts(a) + EditCosts(b)
  {
  }

  /** Summing costs distributes over concatenation. */
  lemma {:induction false} SumAppend(a: seq<Cost>, b: seq<Cost>)
    ensures Sum(a + b) == Plus(Sum(a), Sum(b))
  {
    if a == [] {
      assert a + b == b;
    } else {
      var ab := a + b;
      assert ab[1..] == a[1..] + b && ab[0] == a[0];
      calc {
        Sum(ab);
        Plus(a[0], Sum(a[1..] + b));
        { SumAppend(a[1..], b); }
        Plus(a[0], Plus(Sum(a[1..]), Sum(b)));
        { PlusAssoc(a[0], Sum(a[1..]), Sum(b)); }
        Plus(Sum(a), Sum(b));
      }
    }
  }

  lemma {:induction false} PlusAssoc(a: Cost, b: Cost, c: Cost)
    ensures Plus(a, Plus(b, c)) == Plus(Plus(a, b), c)
  {
  }

  /** A cost inserted anywhere adds to the sum. */
  lemma {:induction false} SumInsert(a: seq<Cost>, c: Cost, b: seq<Cost>)
    ensures Sum(a + [c] + b) == Plus(c, Sum(a + b))
  {
    SumAppend(a, [c] + b);
    SumAppend(a, b);
    assert a + [c] + b == a + ([c] + b);
    assert ([c] + b)[1..] == b && ([c] + b)[0] == c;
    PlusAssoc(Sum(a), c, Sum(b));
    PlusAssoc(c, Sum(a), Sum(b));
  }

  /**
   * The emitted steps account for the whole cost: their own costs sum to the trail's total,
   * reused subtrees included.
   */
  lemma {:induction false} EmittedCost<L>(t: Trail<L>)
    requires WellFormed(t)
    ensures Sum(StepCosts(Emitted(t))) == TotalCost(t)
  {
    if t.Step? {
      EmittedCost(t.next);
      if t.tree.Some? {
        EmittedCost(t.tree.value);
        assert StepCosts(Emitted(t)) == StepCosts(Emitted(t.next)) + StepCosts(Emitted(t.tree.value));
        SumAppend(StepCosts(Emitted(t.next)), StepCosts(Emitted(t.tree.value)));
      } else {
        assert StepCosts(Emitted(t))[1..] == StepCosts(Emitted(t.next));
      }
    }
  }

  /** The second-tree node a plain step matches: an insert's own node, a rename's target. */
  function MatchOf<L>(s: Trail<L>): set<nat>
  {
    if s.Step? && s.op == Insert then {s.first.id}
    else if s.Step? && s.op == Rename && s.second.Some? then {s.second.value.id}
    else {}
  }

  function Matches<L>(ss: seq<Trail<L>>): set<nat>
  {
    if ss == [] then {} else MatchOf(ss[0]) + Matches(ss[1..])
  }

  lemma {:induction false} MatchesAppend<L>(a: seq<Trail<L>>, b: seq<Trail<L>>)
    ensures Matches(a + b) == Matches(a) + Matches(b)
  {
    if a == [] {
      assert a + b == b;
    } else {
      MatchesAppend(a[1..], b);
      assert (a + b)[1..] == a[1..] + b && (a + b)[0] == a[0];
    }
  }

  /**
   * The counterparts of the descendants of a second-tree node, in preorder: for each
   * child, its counterpart (when it has one) and then those of its own descendants.
   */
  function MatchedBelow<L>(m: map<nat, nat>, cs: seq<Tree<L>>): seq<nat>
  {
    if cs == [] then [] else MatchedBelow(m, cs[..|cs| - 1]) + Visit(m, cs[|cs| - 1])
  }

  function Visit<L>(m: map<nat, nat>, c: Tree<L>): seq<nat>
  {
    (if c.id in m then [m[c.id]] else []) + MatchedBelow(m, c.children)
  }

  /** Every node an insert adopts is the counterpart of some second-tree node. */
  lemma {:induction false} MatchedBelowValues<L>(m: map<nat, nat>, cs: seq<Tree<L>>)
    ensures forall x | x in MatchedBelow(m, cs) :: x in m.Values
    decreases cs, 0
  {
    if cs != [] {
      MatchedBelowValues(m, cs[..|cs| - 1]);
      VisitValues(m, cs[|cs| - 1]);
    }
  }

  lemma {:induction false} VisitValues<L>(m: map<nat, nat>, c: Tree<L>)
    ensures forall x | x in Visit(m, c) :: x in m.Values
    decreases c, 1
  {
    MatchedBelowValues(m, c.children);
    if c.id in m {
      assert m[c.id] in m.Values;
    }
  }

  /**
   * The edit `e` is what the walk makes of the plain step `s`: same operation and cost; an
   * insert acts on a fresh clone (not among `before`) carrying the inserted node's label,
   * records its position and the parent's child count when it has a parent, and carries
   * its adopted nodes; a delete or rename acts on the first-tree node itself, and a rename
   * names its target.
   */
  ghost predicate Describes<L>(e: Edit, s: Trail<L>, labels: map<nat, L>, before: set<nat>)
    requires s.Step?
  {
    Made(e, s, labels, before) && (e.descendants.Some? <==> s.op == Insert)
  }

  /** All of `Describes` but the adopted nodes, which the walk fills in last. */
  ghost predicate Made<L>(e: Edit, s: Trail<L>, labels: map<nat, L>, before: set<nat>)
    requires s.Step?
  {
    && e.op == s.op && e.cost == s.cost
    && (s.op == Insert ==>
          && e.firstNode in labels && labels[e.firstNode] == s.first.lbl && e.firstNode !in before
          && (s.second.None? ==> e.secondNode.None? && e.position.None? && e.childrenCount.None?)
          && (s.second.Some? && s.first in s.second.value.children ==>
                && e.position == Some(IndexOf(s.second.value.children, s.first))
                && e.childrenCount == Some(|s.second.value.children|)))
    && (s.op != Insert ==>
          e.firstNode == s.first.id && e.position.None? && e.childrenCount.None?)
    && (s.op == Delete ==> e.secondNode.None?)
    && (s.op == Rename && s.second.Some? ==> e.secondNode == Some(s.second.value.id))
  }

  /** A description stays true as the arena grows. */
  lemma {:induction false} DescribesGrown<L>(e: Edit, s: Trail<L>, labels: map<nat, L>, labels': map<nat, L>,
                          before: set<nat>, before': set<nat>)
    requires s.Step? && Describes(e, s, labels, before) && before' <= before
    requires forall n :: n in labels ==> n in labels' && labels'[n] == labels[n]
    ensures Describes(e, s, labels', before')
  {
  }

  /**
   * The state of the walk: the edits so far, the second-tree-to-counterpart map, and the
   * node arena (labels, parents, children and the next unused id).
   */
  datatype Walk<L> = Walk(edits: seq<Edit>, matched: map<nat, nat>, labels: map<nat, L>,
                          parents: map<nat, Option<nat>>, children: map<nat, seq<nat>>, next: nat)

  /** Every node of the arena has an id below the next unused one. */
  predicate Fresh<L>(w: Walk<L>)
  {
    forall n :: n in w.labels ==> n < w.next
  }

  /** The walk's preconditions on a plain step: an insert's parent holds it, a rename has a target. */
  predicate StepShape<L(==)>(s: Trail<L>)
  {
    s.Step? && s.tree.None?
    && (s.op == Insert && s.second.Some? ==> s.first in s.second.value.children)
    && (s.op == Rename ==> s.second.Some?)
  }

  /**
   * The edit for one plain step, before its adopted nodes are known: an insert clones its
   * node under the next unused id and matches the node to the clone, then looks up its
   * parent's counterpart; a rename matches its target to the node it renames.
   */
  function Start<L(==)>(s: Trail<L>, w: Walk<L>): (r: (Walk<L>, Edit))
    requires StepShape(s)
    ensures r.0.edits == w.edits
  {
    match s.op
    case Insert =>
      var clone := w.next;
      var m := w.matched[s.first.id := clone];
      var w1 := w.(matched := m, labels := w.labels[clone := s.first.lbl], parents := w.parents[clone := None],
                   children := w.children[clone := []], next := clone + 1);
      if s.second.Some? then
        var second := s.second.value;
        (w1, Edit(Insert, s.cost, clone, if second.id in m then Some(m[second.id]) else None,
                  Some(IndexOf(second.children, s.first)), None, Some(|second.children|)))
      else
        (w1, Edit(Insert, s.cost, clone, None, None, None, None))
    case Delete =>
      (w, Edit(Delete, s.cost, s.first.id, None, None, None, None))
    case Rename =>
      (w.(matched := w.matched[s.second.value.id := s.first.id]),
       Edit(Rename, s.cost, s.first.id, Some(s.second.value.id), None, None, None))
  }

  /**
   * The whole walk over `t` from state `w`: a reused-subtree step walks the cell it extends
   * and then the reused trail; a plain step appends its edit, walks the cell it extends,
   * and for an insert then records the counterparts below the inserted node.
   */
  function Synth<L(==)>(t: Trail<L>, w: Walk<L>): (r: Walk<L>)
    requires WellFormed(t)
    ensures |r.edits| == |w.edits| + |Emitted(t)|
    decreases t
  {
    if t.Origin? then w
    else if t.tree.Some? then Synth(t.tree.value, Synth(t.next, w))
    else
      var (w1, e) := Start(t, w);
      var w2 := Synth(t.next, w1.(edits := w1.edits + [e]));
      if t.op == Insert then
        var k := |w1.edits|;
        w2.(edits := w2.edits[k := w2.edits[k].(descendants := Some(MatchedBelow(w2.matched, t.first.children)))])
      else w2
  }

  /** Every label the arena held is still there. */
  predicate Extends<L(==)>(labels0: map<nat, L>, labels: map<nat, L>)
  {
    forall n :: n in labels0 ==> n in labels && labels[n] == labels0[n]
  }

  /** The edit for a plain step describes it, and the arena only gains the clone. */
  lemma {:induction false} StartDescribes<L>(s: Trail<L>, w: Walk<L>)
    requires StepShape(s) && Fresh(w)
    ensures var (w1, e) := Start(s, w);
      && Made(e, s, w1.labels, w.labels.Keys) && e.descendants.None?
      && Fresh(w1) && Extends(w.labels, w1.labels)
      && w1.matched.Keys == w.matched.Keys + MatchOf(s)
  {
  }

  /** From index `k` on, `es` holds one edit describing each step of `ss`, in order. */
  ghost predicate Described<L>(es: seq<Edit>, k: nat, ss: seq<Trail<L>>, labels: map<nat, L>, before: set<nat>)
  {
    && |es| >= k + |ss|
    && forall i :: 0 <= i < |ss| ==> ss[i].Step? && Describes(es[k + i], ss[i], labels, before)
  }

  lemma {:induction false} DescribedGrown<L>(es: seq<Edit>, k: nat, ss: seq<Trail<L>>, labels: map<nat, L>, labels': map<nat, L>,
                          before: set<nat>, before': set<nat>)
    requires Described(es, k, ss, labels, before) && Extends(labels, labels') && before' <= before
    ensures Described(es, k, ss, labels', before')
  {
    forall i | 0 <= i < |ss| ensures Describes(es[k + i], ss[i], labels', before') {
      DescribesGrown(es[k + i], ss[i], labels, labels', before, before');
    }
  }

  /** Descriptions survive appending to the list and rewriting entries before them. */
  lemma {:induction false} DescribedKept<L>(es: seq<Edit>, es': seq<Edit>, k: nat, ss: seq<Trail<L>>, labels: map<nat, L>, before: set<nat>)
    requires Described(es, k, ss, labels, before) && |es'| >= |es|
    requires forall j :: k <= j < |es| ==> es'[j] == es[j]
    ensures Described(es', k, ss, labels, before)
  {
    forall i | 0 <= i < |ss| ensures Describes(es'[k + i], ss[i], labels, before) {
      assert es'[k + i] == es[k + i];
    }
  }

  lemma {:induction false} DescribedConcat<L>(es: seq<Edit>, k: nat, a: seq<Trail<L>>, b: seq<Trail<L>>, labels: map<nat, L>, before: set<nat>)
    requires Described(es, k, a, labels, before) && Described(es, k + |a|, b, labels, before)
    ensures Described(es, k, a + b, labels, before)
  {
    forall i | 0 <= i < |a + b| ensures (a + b)[i].Step? && Describes(es[k + i], (a + b)[i], labels, before) {
      if i >= |a| {
        assert es[k + i] == es[k + |a| + (i - |a|)];
      }
    }
  }

  lemma {:induction false} DescribedCons<L>(es: seq<Edit>, k: nat, s: Trail<L>, rest: seq<Trail<L>>, labels: map<nat, L>, before: set<nat>)
    requires k < |es| && s.Step? && Describes(es[k], s, labels, before) && Described(es, k + 1, rest, labels, before)
    ensures Described(es, k, [s] + rest, labels, before)
  {
    forall i | 0 <= i < 1 + |rest| ensures ([s] + rest)[i].Step? && Describes(es[k + i], ([s] + rest)[i], labels, before) {
      if i > 0 {
        assert es[k + i] == es[k + 1 + (i - 1)];
      }
    }
  }

  /**
   * What the walk over `t` promises: it keeps the edits it started with, appends one edit
   * per emitted step describing that step, only adds fresh nodes to the arena, and matches
   * exactly the nodes the emitted steps insert or rename into.
   */
  ghost predicate Walked<L>(t: Trail<L>, w: Walk<L>, r: Walk<L>)
  {
    && |r.edits| == |w.edits| + |Emitted(t)| && r.edits[..|w.edits|] == w.edits
    && Fresh(r) && Extends(w.labels, r.labels)
    && Described(r.edits, |w.edits|, Emitted(t), r.labels, w.labels.Keys)
    && r.matched.Keys == w.matched.Keys + Matches(Emitted(t))
  }

  /** The walk does what `Walked` promises, from any state whose ids are all used. */
  lemma {:induction false} SynthDescribes<L>(t: Trail<L>, w: Walk<L>)
    requires WellFormed(t) && Fresh(w)
    ensures Walked(t, w, Synth(t, w))
    decreases t, 1
  {
    if t.Origin? {
    } else if t.tree.Some? {
      var w1 := Synth(t.next, w);
      var r := Synth(t.tree.value, w1);
      SynthDescribes(t.next, w);
      SynthDescribes(t.tree.value, w1);
      assert Synth(t, w) == r;
      TreeStepWalked(t, w, w1, r);
    } else {
      PlainStepWalked(t, w);
    }
  }

  lemma {:induction false} TreeStepWalked<L>(t: Trail<L>, w: Walk<L>, w1: Walk<L>, r: Walk<L>)
    requires t.Step? && t.tree.Some? && WellFormed(t)
    requires Walked(t.next, w, w1) && Walked(t.tree.value, w1, r)
    ensures Walked(t, w, r)
  {
    var a, b := Emitted(t.next), Emitted(t.tree.value);
    assert Emitted(t) == a + b;
    MatchesAppend(a, b);
    ConcatDescribed(w.edits, w1.edits, r.edits, a, b, w.labels, w1.labels, r.labels);
    assert r.edits[..|w.edits|] == r.edits[..|w1.edits|][..|w.edits|];
  }

  /** The descriptions of two walks run one after the other, as one. */
  lemma {:induction false} ConcatDescribed<L>(es0: seq<Edit>, es1: seq<Edit>, es2: seq<Edit>, a: seq<Trail<L>>, b: seq<Trail<L>>,
                           l0: map<nat, L>, l1: map<nat, L>, l2: map<nat, L>)
    requires |es1| == |es0| + |a| && |es2| == |es1| + |b| && es2[..|es1|] == es1
    requires Extends(l1, l2) && l0.Keys <= l1.Keys
    requires Described(es1, |es0|, a, l1, l0.Keys) && Described(es2, |es1|, b, l2, l1.Keys)
    ensures Described(es2, |es0|, a + b, l2, l0.Keys)
  {
    forall j | |es0| <= j < |es1| ensures es2[j] == es1[j] {
      assert es2[..|es1|][j] == es1[j];
    }
    DescribedKept(es1, es2, |es0|, a, l1, l0.Keys);
    DescribedGrown(es2, |es0|, a, l1, l2, l0.Keys, l0.Keys);
    DescribedGrown(es2, |es1|, b, l2, l2, l1.Keys, l0.Keys);
    DescribedConcat(es2, |es0|, a, b, l2, l0.Keys);
  }

  lemma {:induction false} PlainStepWalked<L>(t: Trail<L>, w: Walk<L>)
    requires t.Step? && t.tree.None? && WellFormed(t) && Fresh(w)
    ensures Walked(t, w, Synth(t, w))
    decreases t, 0
  {
    var (w1, e) := Start(t, w);
    StartDescribes(t, w);
    var k := |w.edits|;
    var w1' := w1.(edits := w1.edits + [e]);
    var w2 := Synth(t.next, w1');
    SynthDescribes(t.next, w1');
    var x := if t.op == Insert then e.(descendants := Some(MatchedBelow(w2.matched, t.first.children))) else e;
    var r := w2.(edits := w2.edits[k := x]);
    assert w2.edits[k] == e by {
      assert w1.edits == w.edits;
      assert w2.edits[..k + 1] == w.edits + [e];
      assert w2.edits[k] == w2.edits[..k + 1][k];
    }
    assert Synth(t, w) == r;
    ConsWalked(t, w, w1', w2, x, r);
  }

  lemma {:induction false} ConsWalked<L>(t: Trail<L>, w: Walk<L>, w1: Walk<L>, w2: Walk<L>, x: Edit, r: Walk<L>)
    requires t.Step? && t.tree.None? && Fresh(w)
    requires |w1.edits| == |w.edits| + 1 && w1.edits[..|w.edits|] == w.edits && Extends(w.labels, w1.labels)
    requires w1.matched.Keys == w.matched.Keys + MatchOf(t) && Fresh(w1)
    requires Describes(x, t, w1.labels, w.labels.Keys)
    requires Walked(t.next, w1, w2) && r == w2.(edits := w2.edits[|w.edits| := x])
    ensures Walked(t, w, r)
  {
    var k := |w.edits|;
    var rest := Emitted(t.next);
    assert Emitted(t) == [t] + rest;
    ConsDescribed(w.edits, w1.edits, w2.edits, x, t, rest, w.labels, w1.labels, w2.labels);
    assert Matches([t] + rest) == MatchOf(t) + Matches(rest) by {
      assert ([t] + rest)[1..] == rest;
    }
    assert r.edits[..k] == w2.edits[..k + 1][..k];
  }

  /** An edit describing a step, followed by the descriptions of the walk after it, as one. */
  lemma {:induction false} ConsDescribed<L>(es0: seq<Edit>, es1: seq<Edit>, es2: seq<Edit>, x: Edit, s: Trail<L>, rest: seq<Trail<L>>,
                         l0: map<nat, L>, l1: map<nat, L>, l2: map<nat, L>)
    requires |es1| == |es0| + 1 && |es2| == |es1| + |rest| && s.Step?
    requires Extends(l1, l2) && Extends(l0, l1)
    requires Describes(x, s, l1, l0.Keys) && Described(es2, |es1|, rest, l2, l1.Keys)
    ensures Described(es2[|es0| := x], |es0|, [s] + rest, l2, l0.Keys)
  {
    var k := |es0|;
    var es := es2[k := x];
    DescribedKept(es2, es, k + 1, rest, l2, l1.Keys);
    DescribedGrown(es, k + 1, rest, l2, l2, l1.Keys, l0.Keys);
    DescribesGrown(x, s, l1, l2, l0.Keys, l0.Keys);
    DescribedCons(es, k, s, rest, l2, l0.Keys);
  }

  /** The edits the walk appends cost, in total, exactly what the trail does. */
  lemma {:induction false} ScriptCost<L>(t: Trail<L>, w: Walk<L>)
    requires WellFormed(t) && Fresh(w)
    ensures Sum(EditCosts(Synth(t, w).edits[|w.edits|..])) == TotalCost(t)
  {
    var r := Synth(t, w);
    SynthDescribes(t, w);
    var ss := Emitted(t);
    var es := r.edits[|w.edits|..];
    assert EditCosts(es) == StepCosts(ss) by {
      forall i | 0 <= i < |ss| ensures EditCosts(es)[i] == StepCosts(ss)[i] {
        assert es[i] == r.edits[|w.edits| + i];
        assert Describes(r.edits[|w.edits| + i], ss[i], r.labels, w.labels.Keys);
      }
    }
    EmittedCost(t);
  }

  /** The walk's steps: the edits so far and the second-tree-to-counterpart map. */
  class Synthesis<L(==)> {
    var edits: seq<Edit>
    var matched: map<nat, nat>

    constructor ()
      ensures edits == [] && matched == map[]
    {
      edits, matched := [], map[];
    }

    /** The walk's state: this object's fields and the arena's. */
    ghost function Now(arena: Arena<L>): Walk<L>
      reads this, arena
    {
      Walk(edits, matched, arena.labels, arena.parents, arena.children, arena.next)
    }

    /**
     * `applyForestTrails`: walks `current` as `Synth` does, appending edits to this object's
     * list, recording matches, and cloning inserted nodes into the arena.
     */
    method ApplyForestTrails(current: Trail<L>, arena: Arena<L>)
      requires WellFormed(current) && arena.Valid()
      modifies this, arena
      decreases current
      ensures arena.Valid() && Now(arena) == Synth(current, old(Now(arena)))
    {
      if current.Origin? {
        return;
      }
      if current.tree.Some? {
        ApplyForestTrails(current.next, arena);
        ApplyForestTrails(current.tree.value, arena);
      } else {
        var edit := StartEdit(current, arena);
        edits := edits + [edit];
        var index := |edits| - 1;
        ApplyForestTrails(current.next, arena);
        if current.op == Insert {
          var descendants := CollectMatched(current.first);
          edits := edits[index := edits[index].(descendants := Some(descendants))];
        }
      }
    }

    /** The first half of a plain step, as `Start` describes it. */
    method StartEdit(current: Trail<L>, arena: Arena<L>) returns (edit: Edit)
      requires StepShape(current) && arena.Valid()
      modifies this, arena
      ensures arena.Valid() && (Now(arena), edit) == Start(current, old(Now(arena)))
    {
      match current.op
      case Insert =>
        var clone := arena.NewNode(current.first.lbl);
        matched := matched[current.first.id := clone];
        if current.second.Some? {
          var second := current.second.value;
          var secondNode := if second.id in matched then Some(matched[second.id]) else None;
          edit := Edit(Insert, current.cost, clone, secondNode, Some(IndexOf(second.children, current.first)),
                       None, Some(|second.children|));
        } else {
          edit := Edit(Insert, current.cost, clone, None, None, None, None);
        }
      case Delete =>
        edit := Edit(Delete, current.cost, current.first.id, None, None, None, None);
      case Rename =>
        edit := Edit(Rename, current.cost, current.first.id, Some(current.second.value.id), None, None, None);
        matched := matched[current.second.value.id := current.first.id];
    }

    /** The depth-first collection of the counterparts below `cur`. */
    method CollectMatched(cur: Tree<L>) returns (d: seq<nat>)
      ensures d == MatchedBelow(matched, cur.children)
      decreases cur
    {
      d := [];
      for i := 0 to |cur.children|
        invariant d == MatchedBelow(matched, cur.children[..i])
      {
        var child := cur.children[i];
        assert cur.children[..i + 1][..i] == cur.children[..i];
        if child.id in matched {
          d := d + [matched[child.id]];
        }
        var below := CollectMatched(child);
        d := d + below;
      }
      assert cur.children[..|cur.children|] == cur.children;
    }
  }

  /** Edits in the order `<` sorts them: every delete, then every rename, then every insert. */
  predicate SortedByOp(es: seq<Edit>)
  {
    forall i, j :: 0 <= i < j < |es| ==> RawValue(es[i].op) <= RawValue(es[j].op)
  }

  /** No edit is `<` an edit before it: `<` places every delete before every rename before every insert. */
  lemma {:induction false} SortedGroups(es: seq<Edit>)
    requires SortedByOp(es)
    ensures forall i, j :: 0 <= i < |es| && 0 <= j < |es| && Less(es[i].op, es[j].op) ==> i < j
  {
  }

  /** `edits.sort()`: the same edits, sorted by operation, at the same total cost. */
  method SortEdits(edits: seq<Edit>) returns (sorted: seq<Edit>)
    ensures SortedByOp(sorted) && multiset(sorted) == multiset(edits)
    ensures Sum(EditCosts(sorted)) == Sum(EditCosts(edits))
  {
    sorted := [];
    for i := 0 to |edits|
      invariant SortedByOp(sorted) && multiset(sorted) == multiset(edits[..i])
      invariant Sum(EditCosts(sorted)) == Sum(EditCosts(edits[..i]))
    {
      var p := InsertionPoint(sorted, edits[i]);
      InsertSorted(sorted, edits[i], p);
      PrefixStep(edits, i);
      sorted := sorted[..p] + [edits[i]] + sorted[p..];
    }
    assert edits[..|edits|] == edits;
  }

  /** The scan from the back of `sorted` for the place of `e`: after every edit not `>` it. */
  method InsertionPoint(sorted: seq<Edit>, e: Edit) returns (p: nat)
    ensures p <= |sorted|
    ensures p > 0 ==> !Less(e.op, sorted[p - 1].op)
    ensures forall k :: p <= k < |sorted| ==> RawValue(e.op) < RawValue(sorted[k].op)
  {
    p := |sorted|;
    while p > 0 && Less(e.op, sorted[p - 1].op)
      invariant 0 <= p <= |sorted|
      invariant forall k :: p <= k < |sorted| ==> RawValue(e.op) < RawValue(sorted[k].op)
    {
      p := p - 1;
    }
  }

  /** Growing the prefix of `edits` by one edit adds that edit and its cost. */
  lemma {:induction false} PrefixStep(edits: seq<Edit>, i: nat)
    requires i < |edits|
    ensures multiset(edits[..i + 1]) == multiset(edits[..i]) + multiset{edits[i]}
    ensures Sum(EditCosts(edits[..i + 1])) == Plus(edits[i].cost, Sum(EditCosts(edits[..i])))
  {
    var e, before := edits[i], edits[..i];
    assert edits[..i + 1] == before + [e];
    var c := EditCosts(before);
    assert EditCosts(before + [e]) == c + [e.cost] by {
      EditCostsAppend(before, [e]);
      assert EditCosts([e]) == [e.cost];
    }
    SumAppend(c, [e.cost]);
    assert Sum([e.cost]) == e.cost by {
      assert [e.cost][1..] == [];
    }
  }

  /** Inserting where the scan stopped keeps the list sorted and adds the edit's cost. */
  lemma {:induction false} InsertSorted(s: seq<Edit>, e: Edit, p: nat)
    requires SortedByOp(s) && p <= |s|
    requires p > 0 ==> !Less(e.op, s[p - 1].op)
    requires forall k :: p <= k < |s| ==> RawValue(e.op) < RawValue(s[k].op)
    ensures var r := s[..p] + [e] + s[p..];
      && SortedByOp(r) && multiset(r) == multiset(s) + multiset{e}
      && Sum(EditCosts(r)) == Plus(e.cost, Sum(EditCosts(s)))
  {
    InsertKeepsOrder(s, e, p);
    InsertCost(s, e, p);
    assert s == s[..p] + s[p..];
  }

  /** An edit inserted anywhere adds its cost to the total. */
  lemma {:induction false} InsertCost(s: seq<Edit>, e: Edit, p: nat)
    requires p <= |s|
    ensures Sum(EditCosts(s[..p] + [e] + s[p..])) == Plus(e.cost, Sum(EditCosts(s)))
  {
    var a, b := s[..p], s[p..];
    assert s == a + b;
    var ca, cb := EditCosts(a), EditCosts(b);
    assert EditCosts([e]) == [e.cost];
    calc {
      EditCosts(a + [e] + b);
      { EditCostsAppend(a + [e], b); }
      EditCosts(a + [e]) + cb;
      { EditCostsAppend(a, [e]); }
      ca + EditCosts([e]) + cb;
    }
    calc {
      Sum(ca + [e.cost] + cb);
      { SumInsert(ca, e.cost, cb); }
      Plus(e.cost, Sum(ca + cb));
      { EditCostsAppend(a, b); }
      Plus(e.cost, Sum(EditCosts(s)));
    }
  }

  lemma {:induction false} InsertKeepsOrder(s: seq<Edit>, e: Edit, p: nat)
    requires SortedByOp(s) && p <= |s|
    requires p > 0 ==> !Less(e.op, s[p - 1].op)
    requires forall k :: p <= k < |s| ==> RawValue(e.op) < RawValue(s[k].op)
    ensures SortedByOp(s[..p] + [e] + s[p..])
  {
    var r := s[..p] + [e] + s[p..];
    forall i, j | 0 <= i < j < |r| ensures RawValue(r[i].op) <= RawValue(r[j].op) {
      if j < p {
        assert r[i] == s[i] && r[j] == s[j];
      } else if j == p {
        assert r[i] == s[i] && RawValue(s[i].op) <= RawValue(s[p - 1].op);
      } else if i == p {
        assert r[j] == s[j - 1];
      } else if i < p {
        assert r[i] == s[i] && r[j] == s[j - 1];
      } else {
        assert r[i] == s[i - 1] && r[j] == s[j - 1];
      }
    }
  }

  /** The identities of a list of trees, in order. */
  function Ids<L>(cs: seq<Tree<L>>): (r: seq<nat>)
    ensures |r| == |cs| && forall i :: 0 <= i < |cs| ==> r[i] == cs[i].id
  {
    seq(|cs|, i requires 0 <= i < |cs| => cs[i].id)
  }

  /** Node `n` of a tree is an arena node with its label, its children in order, and each child's parent link to it. */
  ghost predicate HoldsNode<L>(g: Nodes<L>, n: Tree<L>)
  {
    && n.id in g.labels && g.labels[n.id] == n.lbl
    && n.id in g.children && g.children[n.id] == Ids(n.children)
    && forall i :: 0 <= i < |n.children| ==> n.children[i].id in g.parents && g.parents[n.children[i].id] == Some(n.id)
  }

  /** The arena holds the tree `t`: every node of `t` is there as `HoldsNode` says, so reading the arena from `t.id` gives `t`. */
  ghost predicate Holds<L>(g: Nodes<L>, t: Tree<L>)
  {
    forall k :: 0 <= k < Size(t) ==> HoldsNode(g, Post(t)[k])
  }

  /**
   * Two trees held in one heap agree on every node they share: its label and its children are
   * the heap's, so an edit naming a shared node reads the same node from either tree.
   */
  lemma {:induction false} SharedNodesAgree<L>(g: Nodes<L>, t1: Tree<L>, t2: Tree<L>, k: nat, l: nat)
    requires Holds(g, t1) && Holds(g, t2) && k < Size(t1) && l < Size(t2) && Post(t1)[k].id == Post(t2)[l].id
    ensures Post(t1)[k].lbl == Post(t2)[l].lbl && Ids(Post(t1)[k].children) == Ids(Post(t2)[l].children)
  {
    assert HoldsNode(g, Post(t1)[k]) && HoldsNode(g, Post(t2)[l]);
  }

  /** The walk's starting state over an arena: no edits, no matches. */
  ghost function Initial<L>(arena: Arena<L>): Walk<L>
    reads arena
  {
    Walk([], map[], arena.labels, arena.parents, arena.children, arena.next)
  }

  /**
   * `treeDistance`: the cost of the cheapest edit script turning `t1` into `t2`, and that
   * script, sorted deletes first, then renames, then inserts. The script holds the edits
   * the walk reads off the root-to-root trail, their costs add up to the distance, and the
   * arena ends as the walk leaves it (the clones of the inserted nodes added). Both trees
   * are already in the arena: the walk reads their nodes' parents and children from it.
   */
  method TreeDistance<L(==)>(t1: Tree<L>, t2: Tree<L>, cost: CostFn<L>, arena: Arena<L>)
      returns (d: Cost, edits: seq<Edit>)
    requires DistinctIds(t1) && DistinctIds(t2) && arena.Valid()
    requires Holds(arena.Graph(), t1) && Holds(arena.Graph(), t2)
    modifies arena
    ensures d == TotalCost(DistanceTrail(t1, t2, cost)) && d.Fin?
    ensures SortedByOp(edits) && Sum(EditCosts(edits)) == d
    ensures WellFormed(DistanceTrail(t1, t2, cost))
    ensures var w := Synth(DistanceTrail(t1, t2, cost), old(Initial(arena)));
      && multiset(edits) == multiset(w.edits) && |edits| == |Emitted(DistanceTrail(t1, t2, cost))|
      && arena.Valid() && arena.labels == w.labels && arena.parents == w.parents
      && arena.children == w.children && arena.next == w.next
  {
    var trail;
    d, trail := Distance(t1, t2, cost);
    DistanceWellFormed(t1, t2, cost);
    var synthesis := new Synthesis<L>();
    assert synthesis.Now(arena) == Initial(arena);
    synthesis.ApplyForestTrails(trail, arena);
    edits := SortEdits(synthesis.edits);
    ScriptCost(trail, old(Initial(arena)));
    assert synthesis.edits[0..] == synthesis.edits;
  }
}
