/**
 * Replaying an edit script on a tree of shared nodes (Sources/TreeDistance/TreeDistance.swift,
 * `transformTree`). Each edit is first given as a function on the arena's nodes, `None` where
 * the replay would trap (a missing parent, a child that is not there to remove, an insert
 * position past the end, an unset field); each loop of the replay is then a method on the
 * arena proved to reach exactly that function's result.
 */
module Transforms {
  import opened Wrappers
  import opened Operations
  import opened TreeNodes
  import opened ChildLists
  import opened EditScripts

  /** Points each of `ks` at `p`, leaving every other parent link as it was. */
  function Reparent(ps: map<nat, Option<nat>>, ks: seq<nat>, p: nat): (r: map<nat, Option<nat>>)
    ensures r.Keys == ps.Keys
    ensures forall n :: n in r && n in ks ==> r[n] == Some(p)
    ensures forall n :: n in r && n !in ks ==> r[n] == ps[n]
  {
    map n | n in ps :: if n in ks then Some(p) else ps[n]
  }

  /** Reparenting one more node is one more parent update. */
  lemma {:induction false} ReparentAdd(ps: map<nat, Option<nat>>, ks: seq<nat>, ks': seq<nat>, c: nat, p: nat)
    requires c in ps && forall n :: n in ks' <==> n in ks || n == c
    ensures Reparent(ps, ks', p) == Reparent(ps, ks, p)[c := Some(p)]
  {
  }

  /** Reparenting one more node, at the end of the list, is one more parent update. */
  lemma {:induction false} ReparentSnoc(ps: map<nat, Option<nat>>, ks: seq<nat>, c: nat, p: nat)
    requires c in ps
    ensures Reparent(ps, ks + [c], p) == Reparent(ps, ks, p)[c := Some(p)]
  {
    assert forall n :: n in ks + [c] <==> n in ks || n == c;
    ReparentAdd(ps, ks, ks + [c], c, p);
  }

  /**
   * Where an insert puts the new node among the `count` children its parent has left:
   * `max(0, count - childrenCount + 1 + position)`, never past the end when the position is
   * below the children count.
   */
  function InsertIndex(count: nat, position: nat, childrenCount: nat): (r: nat)
    ensures r >= count - childrenCount + 1 + position
    ensures r == 0 || r == count - childrenCount + 1 + position
    ensures position < childrenCount ==> r <= count
  {
    if count - childrenCount + 1 + position < 0 then 0 else count - childrenCount + 1 + position
  }

  /** Both nodes an edit names belong to the arena. */
  predicate InArena(ids: set<nat>, e: Edit)
  {
    e.firstNode in ids && (e.secondNode.Some? ==> e.secondNode.value in ids)
  }

  /** Every edit of a script names nodes of the arena. */
  predicate Targets(ids: set<nat>, edits: seq<Edit>)
  {
    forall k :: 0 <= k < |edits| ==> InArena(ids, edits[k])
  }

  /** New parent links to arena nodes keep the nodes closed. */
  lemma {:induction false} SetParentsClosed<L>(g: Nodes<L>, ps: map<nat, Option<nat>>)
    requires Closed(g) && ps.Keys == g.parents.Keys
    requires forall n :: n in ps && ps[n].Some? ==> ps[n].value in g.labels
    ensures Closed(g.(parents := ps))
  {
  }

  /** A node's children in closed nodes are a set of arena nodes. */
  lemma {:induction false} ChildrenOf<L>(g: Nodes<L>, n: nat)
    requires Closed(g) && n in g.children
    ensures NoDup(g.children[n]) && forall x :: x in g.children[n] ==> x in g.labels
  {
  }

  /** Inserting an arena node among a set of arena nodes, as a node's new children, keeps the nodes closed. */
  lemma {:induction false} InsertAmongClosed<L>(g: Nodes<L>, n: nat, rest: seq<nat>, c: nat, index: nat)
    requires Closed(g) && n in g.children && c in g.labels
    requires NoDup(rest) && (forall x :: x in rest ==> x in g.labels) && (c !in rest ==> index <= |rest|)
    ensures c in Inserted(rest, c, Some(index))
    ensures Closed(g.(children := g.children[n := Inserted(rest, c, Some(index))]))
  {
    InsertedFacts(rest, c, Some(index));
    InsertedMembers(rest, c, Some(index));
    SetChildrenClosed(g, n, Inserted(rest, c, Some(index)));
  }

  /** What is left of an arena node's children after removals is a set of arena nodes. */
  lemma {:induction false} RemainderOf<L>(g: Nodes<L>, n: nat, xs: seq<nat>)
    requires Closed(g) && n in g.children && RemoveAll(g.children[n], xs).Some?
    ensures NoDup(RemoveAll(g.children[n], xs).value)
    ensures forall x :: x in RemoveAll(g.children[n], xs).value ==> x in g.labels
  {
    ChildrenOf(g, n);
    RemoveAllFacts(g.children[n], xs);
  }

  /** Pointing some nodes at an arena node keeps the nodes closed. */
  lemma {:induction false} ReparentClosed<L>(g: Nodes<L>, ks: seq<nat>, p: nat)
    requires Closed(g) && p in g.labels
    ensures Closed(g.(parents := Reparent(g.parents, ks, p)))
  {
    SetParentsClosed(g, Reparent(g.parents, ks, p));
  }

  /** Pointing one node at an arena node keeps the nodes closed. */
  lemma {:induction false} SetParentClosed<L>(g: Nodes<L>, n: nat, p: nat)
    requires Closed(g) && n in g.parents && p in g.labels
    ensures Closed(g.(parents := g.parents[n := Some(p)]))
  {
    SetParentsClosed(g, g.parents[n := Some(p)]);
  }

  /** Every node has a label, a parent slot and a children list, and parent links name nodes of the arena. */
  predicate Linked<L>(g: Nodes<L>)
  {
    && g.labels.Keys == g.parents.Keys == g.children.Keys
    && forall n :: n in g.parents && g.parents[n].Some? ==> g.parents[n].value in g.labels
  }

  // ---- the edits, on the nodes as a value ----

  /** A rename copies the second node's label onto the first. */
  function RenameNode<L>(g: Nodes<L>, first: nat, second: nat): (r: Nodes<L>)
    requires Linked(g) && first in g.labels && second in g.labels
    ensures Linked(r) && r.labels.Keys == g.labels.Keys
  {
    Nodes(g.labels[first := g.labels[second]], g.parents, g.children)
  }

  /**
   * A delete promotes the deleted node's children, last one first, to the deleted node's
   * place among its parent's children, then unlinks the deleted node. `None` when it has no
   * parent or is not among its parent's children.
   */
  function DeleteNode<L>(g: Nodes<L>, deleted: nat): (r: Option<Nodes<L>>)
    requires Linked(g) && deleted in g.labels
    ensures r.Some? <==> g.parents[deleted].Some? && deleted in g.children[g.parents[deleted].value]
    ensures r.Some? ==> Linked(r.value) && r.value.labels == g.labels
  {
    var p := g.parents[deleted];
    if p.None? || deleted !in g.children[p.value] then None
    else
      var parent, s := p.value, g.children[p.value];
      var promoted := Promote(s, g.children[deleted], IndexOf(s, deleted));
      PromoteKeeps(s, g.children[deleted], IndexOf(s, deleted));
      Some(Nodes(g.labels, Reparent(g.parents, g.children[deleted], parent), g.children[parent := Removed(promoted, deleted)]))
  }

  /**
   * The first scan of an insert: each child of the parent, in order, moves under the inserted
   * node once for every time the descendants name it (a second move leaves it in place).
   */
  function Adopted<L>(g: Nodes<L>, inserted: nat, parent: nat, ds: seq<nat>): (r: Nodes<L>)
    requires Linked(g) && inserted in g.labels && parent in g.labels
    ensures Linked(r) && r.labels == g.labels
  {
    var kids := g.children[parent];
    Nodes(g.labels, Reparent(g.parents, Matching(kids, ds), inserted), g.children[inserted := AdoptInto(g.children[inserted], kids, ds)])
  }

  /** The second scan of an insert: each moved child leaves the parent; `None` when one is not there. */
  function Detached<L>(g: Nodes<L>, parent: nat, xs: seq<nat>): (r: Option<Nodes<L>>)
    requires Linked(g) && parent in g.labels
    ensures r.Some? <==> RemoveAll(g.children[parent], xs).Some?
    ensures r.Some? ==> Linked(r.value) && r.value.labels == g.labels
  {
    match RemoveAll(g.children[parent], xs)
    case None => None
    case Some(rest) => Some(Nodes(g.labels, g.parents, g.children[parent := rest]))
  }

  /**
   * The last step of an insert: the inserted node goes in among the parent's children at
   * `max(0, count - childrenCount + 1 + position)`; `None` when that is past their end.
   */
  function Placed<L>(g: Nodes<L>, inserted: nat, parent: nat, position: nat, childrenCount: nat): (r: Option<Nodes<L>>)
    requires Linked(g) && inserted in g.labels && parent in g.labels
    ensures r.Some? ==> Linked(r.value) && r.value.labels == g.labels
  {
    var rest := g.children[parent];
    var index := InsertIndex(|rest|, position, childrenCount);
    if inserted !in rest && index > |rest| then None
    else Some(Nodes(g.labels, g.parents[inserted := Some(parent)], g.children[parent := Inserted(rest, inserted, Some(index))]))
  }

  /**
   * An insert under a parent: the parent's children that the edit names as descendants move,
   * in order, under the inserted node, and the inserted node takes its place among the rest.
   * `None` where the replay traps: an unset position or children count, unset descendants
   * when the parent has children, a child named twice, an index past the end.
   */
  function InsertUnder<L>(g: Nodes<L>, inserted: nat, parent: nat, e: Edit): (r: Option<Nodes<L>>)
    requires Linked(g) && inserted in g.labels && parent in g.labels
    ensures r.Some? ==> Linked(r.value) && r.value.labels == g.labels
    ensures r.Some? ==> e.position.Some? && e.childrenCount.Some?
  {
    var kids := g.children[parent];
    if e.position.None? || e.childrenCount.None? || (e.descendants.None? && kids != []) then None
    else
      var ds := if e.descendants.Some? then e.descendants.value else [];
      var d := Detached(Adopted(g, inserted, parent, ds), parent, Matching(kids, ds));
      if d.None? then None else Placed(d.value, inserted, parent, e.position.value, e.childrenCount.value)
  }

  /** An insert without a parent puts the inserted node above the root, which it replaces. */
  function InsertRoot<L>(g: Nodes<L>, root: nat, inserted: nat): (r: Nodes<L>)
    requires Linked(g) && root in g.labels && inserted in g.labels
    ensures Linked(r) && r.labels == g.labels
  {
    Nodes(g.labels, g.parents[root := Some(inserted)], g.children[inserted := Inserted(g.children[inserted], root, Some(0))])
  }

  /** One edit of the script, with the root it leaves; `None` where the replay traps. */
  function Apply<L>(g: Nodes<L>, root: nat, e: Edit): (r: Option<(Nodes<L>, nat)>)
    requires Linked(g) && root in g.labels
    ensures r.Some? ==> InArena(g.labels.Keys, e)
    ensures r.Some? ==> Linked(r.value.0) && r.value.0.labels.Keys == g.labels.Keys && r.value.1 in g.labels
  {
    if !InArena(g.labels.Keys, e) then None
    else match e.op
    case Insert =>
      if e.secondNode.Some? then
        var u := InsertUnder(g, e.firstNode, e.secondNode.value, e);
        if u.None? then None else Some((u.value, root))
      else Some((InsertRoot(g, root, e.firstNode), e.firstNode))
    case Delete =>
      var d := DeleteNode(g, e.firstNode);
      if d.None? then None else Some((d.value, root))
    case Rename =>
      if e.secondNode.None? then None else Some((RenameNode(g, e.firstNode, e.secondNode.value), root))
  }

  /** The edits of a script replayed in order; `None` if one of them traps. */
  function Transform<L>(g: Nodes<L>, root: nat, edits: seq<Edit>): (r: Option<(Nodes<L>, nat)>)
    requires Linked(g) && root in g.labels
    ensures r.Some? ==> Linked(r.value.0) && r.value.0.labels.Keys == g.labels.Keys && r.value.1 in g.labels
  {
    if edits == [] then Some((g, root))
    else
      var prev := Transform(g, root, edits[..|edits| - 1]);
      if prev.None? then None
      else Apply(prev.value.0, prev.value.1, edits[|edits| - 1])
  }

  // ---- the replay keeps the nodes closed ----

  /**
   * A rename keeps the nodes closed and changes nothing but the first node's label, which
   * becomes the second node's.
   */
  lemma {:induction false} RenameClosed<L>(g: Nodes<L>, first: nat, second: nat)
    requires Closed(g) && first in g.labels && second in g.labels
    ensures var r := RenameNode(g, first, second);
      && Closed(r) && r.parents == g.parents && r.children == g.children
      && r.labels[first] == g.labels[second]
      && forall n :: n in g.labels && n != first ==> n in r.labels && r.labels[n] == g.labels[n]
  {
  }

  /**
   * A delete keeps the nodes closed; the deleted node is no longer among its parent's
   * children, and its children now have that parent.
   */
  lemma {:induction false} DeleteClosed<L>(g: Nodes<L>, deleted: nat)
    requires Closed(g) && deleted in g.labels && DeleteNode(g, deleted).Some?
    ensures var r, parent := DeleteNode(g, deleted).value, g.parents[deleted].value;
      && Closed(r)
      && deleted !in r.children[parent]
      && forall k :: k in g.children[deleted] ==> r.parents[k] == Some(parent)
  {
    var parent, s, kids := g.parents[deleted].value, g.children[g.parents[deleted].value], g.children[deleted];
    var pos := IndexOf(s, deleted);
    var promoted := Promote(s, kids, pos);
    ChildrenOf(g, parent);
    PromoteFacts(s, kids, pos);
    RemovedFacts(promoted, deleted);
    RemovedMembers(promoted, deleted);
    SetChildrenClosed(g, parent, Removed(promoted, deleted));
    ReparentClosed(g.(children := g.children[parent := Removed(promoted, deleted)]), kids, parent);
  }

  /**
   * An insert under a parent keeps the nodes closed, and leaves the inserted node among the
   * parent's children with the parent as its own.
   */
  lemma {:induction false} InsertUnderClosed<L>(g: Nodes<L>, inserted: nat, parent: nat, e: Edit)
    requires Closed(g) && inserted in g.labels && parent in g.labels && InsertUnder(g, inserted, parent, e).Some?
    ensures var r := InsertUnder(g, inserted, parent, e).value;
      Closed(r) && inserted in r.children[parent] && r.parents[inserted] == Some(parent)
  {
    var kids := g.children[parent];
    var ds := if e.descendants.Some? then e.descendants.value else [];
    var g1 := Adopted(g, inserted, parent, ds);
    AdoptedClosed(g, inserted, parent, ds);
    ReparentClosed(g.(children := g1.children), Matching(kids, ds), inserted);
    assert Closed(g1);
    var g2 := Detached(g1, parent, Matching(kids, ds)).value;
    RemainderOf(g1, parent, Matching(kids, ds));
    SetChildrenClosed(g1, parent, g2.children[parent]);
    assert Closed(g2);
    PlacedClosed(g2, inserted, parent, e.position.value, e.childrenCount.value);
  }

  /** Adopting the named children of the parent keeps the nodes' children sets of arena nodes. */
  lemma {:induction false} AdoptedClosed<L>(g: Nodes<L>, inserted: nat, parent: nat, ds: seq<nat>)
    requires Closed(g) && inserted in g.labels && parent in g.labels
    ensures Closed(g.(children := g.children[inserted := AdoptInto(g.children[inserted], g.children[parent], ds)]))
  {
    var kids := g.children[parent];
    ChildrenOf(g, inserted);
    ChildrenOf(g, parent);
    AdoptFacts(g.children[inserted], kids, ds);
    SetChildrenClosed(g, inserted, AdoptInto(g.children[inserted], kids, ds));
  }

  /** Placing the inserted node keeps the nodes closed, with the inserted node under the parent. */
  lemma {:induction false} PlacedClosed<L>(g: Nodes<L>, inserted: nat, parent: nat, position: nat, childrenCount: nat)
    requires Closed(g) && inserted in g.labels && parent in g.labels && Placed(g, inserted, parent, position, childrenCount).Some?
    ensures var r := Placed(g, inserted, parent, position, childrenCount).value;
      Closed(r) && inserted in r.children[parent] && r.parents[inserted] == Some(parent)
  {
    var rest := g.children[parent];
    var index := InsertIndex(|rest|, position, childrenCount);
    var h := g.(children := g.children[parent := Inserted(rest, inserted, Some(index))]);
    var r := h.(parents := h.parents[inserted := Some(parent)]);
    assert Placed(g, inserted, parent, position, childrenCount) == Some(r);
    ChildrenOf(g, parent);
    InsertAmongClosed(g, parent, rest, inserted, index);
    SetParentClosed(h, inserted, parent);
  }

  /**
   * Putting a node above the root keeps the nodes closed, with the old root under it; a
   * childless inserted node ends with the old root as its only child.
   */
  lemma {:induction false} InsertRootClosed<L>(g: Nodes<L>, root: nat, inserted: nat)
    requires Closed(g) && root in g.labels && inserted in g.labels
    ensures var r := InsertRoot(g, root, inserted);
      && Closed(r) && root in r.children[inserted] && r.parents[root] == Some(inserted)
      && (g.children[inserted] == [] ==> r.children[inserted] == [root])
  {
    var kids := g.children[inserted];
    var g1 := g.(children := g.children[inserted := Inserted(kids, root, Some(0))]);
    ChildrenOf(g, inserted);
    InsertAmongClosed(g, inserted, kids, root, 0);
    SetParentClosed(g1, root, inserted);
    if kids == [] {
      InsertIntoEmpty(root);
    }
  }

  lemma {:induction false} InsertIntoEmpty(c: nat)
    ensures Inserted([], c, Some(0)) == [c]
  {
    var e: seq<nat> := [];
    assert e[..0] + [c] + e[0..] == [c];
  }

  /** Every edit keeps the nodes closed. */
  lemma {:induction false} ApplyClosed<L>(g: Nodes<L>, root: nat, e: Edit)
    requires Closed(g) && root in g.labels && Apply(g, root, e).Some?
    ensures Closed(Apply(g, root, e).value.0)
  {
    match e.op
    case Insert =>
      if e.secondNode.Some? {
        InsertUnderClosed(g, e.firstNode, e.secondNode.value, e);
      } else {
        InsertRootClosed(g, root, e.firstNode);
      }
    case Delete =>
      DeleteClosed(g, e.firstNode);
    case Rename =>
      RenameClosed(g, e.firstNode, e.secondNode.value);
  }

  /** Replaying a whole script keeps the nodes closed. */
  lemma {:induction false} TransformClosed<L>(g: Nodes<L>, root: nat, edits: seq<Edit>)
    requires Closed(g) && root in g.labels && Transform(g, root, edits).Some?
    ensures Closed(Transform(g, root, edits).value.0)
  {
    if edits != [] {
      var init := edits[..|edits| - 1];
      TransformClosed(g, root, init);
      var prev := Transform(g, root, init).value;
      ApplyClosed(prev.0, prev.1, edits[|edits| - 1]);
    }
  }

  // ---- what the edits do to a tree ----

  /**
   * Deleting a node of a tree splices its children into its place among its parent's
   * children, and makes the parent theirs.
   */
  lemma {:induction false} DeleteSplices<L>(g: Nodes<L>, deleted: nat, parent: nat)
    requires Linked(g) && deleted in g.labels && g.parents[deleted] == Some(parent)
    requires deleted in g.children[parent] && deleted !in g.children[deleted]
    requires NoDup(g.children[parent]) && NoDup(g.children[deleted])
    requires forall k :: k in g.children[deleted] ==> k !in g.children[parent]
    ensures var s, kids := g.children[parent], g.children[deleted];
      var pos := IndexOf(s, deleted);
      DeleteNode(g, deleted) == Some(Nodes(g.labels, Reparent(g.parents, kids, parent),
                                           g.children[parent := s[..pos] + kids + s[pos + 1..]]))
  {
    var s, kids := g.children[parent], g.children[deleted];
    var pos := IndexOf(s, deleted);
    PromoteRemoved(s, kids, deleted);
    var promoted := Promote(s, kids, pos);
    assert DeleteNode(g, deleted) == Some(Nodes(g.labels, Reparent(g.parents, kids, parent), g.children[parent := Removed(promoted, deleted)]));
  }

  /**
   * Inserting a fresh node under a parent of a tree moves exactly the parent's children that
   * the edit names, in their order, under the new node, and places the new node among the
   * rest at `max(0, rest - childrenCount + 1 + position)`, which is never past their end when
   * the position is below the children count.
   */
  lemma {:induction false} InsertAdopts<L>(g: Nodes<L>, inserted: nat, parent: nat, e: Edit)
    requires Linked(g) && inserted in g.labels && parent in g.labels && inserted != parent
    requires g.children[inserted] == [] && inserted !in g.children[parent] && NoDup(g.children[parent])
    requires e.descendants.Some? && NoDup(e.descendants.value)
    requires e.position.Some? && e.childrenCount.Some? && e.position.value < e.childrenCount.value
    ensures var kids, ds := g.children[parent], e.descendants.value;
      var rest := Without(kids, ds);
      var index := InsertIndex(|rest|, e.position.value, e.childrenCount.value);
      && index <= |rest|
      && InsertUnder(g, inserted, parent, e)
         == Some(Nodes(g.labels, Reparent(g.parents, Filter(kids, ds), inserted)[inserted := Some(parent)],
                       g.children[inserted := Filter(kids, ds)][parent := rest[..index] + [inserted] + rest[index..]]))
  {
    var kids, ds := g.children[parent], e.descendants.value;
    var position, childrenCount := e.position.value, e.childrenCount.value;
    var moved, rest := Filter(kids, ds), Without(kids, ds);
    var g2 := Nodes(g.labels, Reparent(g.parents, moved, inserted), g.children[inserted := moved][parent := rest]);
    MatchingIsFilter(kids, ds);
    AdoptDetach(g, inserted, parent, ds);
    assert InsertUnder(g, inserted, parent, e) == Placed(g2, inserted, parent, position, childrenCount);
    assert inserted !in rest by {
      FilterMembers(kids, ds);
    }
    PlacedFresh(g2, inserted, parent, position, childrenCount);
    var index := InsertIndex(|rest|, position, childrenCount);
    UpdateTwice(g.children[inserted := moved], parent, rest, rest[..index] + [inserted] + rest[index..]);
  }

  /**
   * The two scans of an insert into a fresh node: the named children move, in order, under
   * the inserted node, and the rest stay with the parent.
   */
  lemma {:induction false} AdoptDetach<L>(g: Nodes<L>, inserted: nat, parent: nat, ds: seq<nat>)
    requires Linked(g) && inserted in g.labels && parent in g.labels && inserted != parent
    requires g.children[inserted] == [] && NoDup(g.children[parent]) && NoDup(ds)
    ensures var kids := g.children[parent];
      var moved := Filter(kids, ds);
      Detached(Adopted(g, inserted, parent, ds), parent, moved)
      == Some(Nodes(g.labels, Reparent(g.parents, moved, inserted), g.children[inserted := moved][parent := Without(kids, ds)]))
  {
    var kids := g.children[parent];
    var moved, rest := Filter(kids, ds), Without(kids, ds);
    MatchingIsFilter(kids, ds);
    AdoptIsFilter(kids, ds);
    var g1 := Nodes(g.labels, Reparent(g.parents, moved, inserted), g.children[inserted := moved]);
    assert Adopted(g, inserted, parent, ds) == g1;
    assert g1.children[parent] == kids;
    assert RemoveAll(kids, moved) == Some(rest) by {
      assert kids + [] == kids;
      RemoveFiltered(kids, [], ds);
      assert rest + [] == rest;
    }
  }

  /** A node that is not yet among the parent's children goes in at the computed index. */
  lemma {:induction false} PlacedFresh<L>(g: Nodes<L>, inserted: nat, parent: nat, position: nat, childrenCount: nat)
    requires Linked(g) && inserted in g.labels && parent in g.labels
    requires inserted !in g.children[parent] && position < childrenCount
    ensures var rest := g.children[parent];
      var index := InsertIndex(|rest|, position, childrenCount);
      && index <= |rest|
      && Placed(g, inserted, parent, position, childrenCount)
         == Some(Nodes(g.labels, g.parents[inserted := Some(parent)], g.children[parent := rest[..index] + [inserted] + rest[index..]]))
  {
    var rest := g.children[parent];
    var index := InsertIndex(|rest|, position, childrenCount);
    assert Inserted(rest, inserted, Some(index)) == rest[..index] + [inserted] + rest[index..];
  }

  /** Replaying two scripts one after the other is replaying their concatenation. */
  lemma {:induction false} TransformConcat<L>(g: Nodes<L>, root: nat, a: seq<Edit>, b: seq<Edit>)
    requires Linked(g) && root in g.labels
    ensures Transform(g, root, a).Some? ==>
      Transform(g, root, a + b) == Transform(Transform(g, root, a).value.0, Transform(g, root, a).value.1, b)
    ensures Transform(g, root, a).None? ==> Transform(g, root, a + b).None?
    decreases |b|
  {
    if b == [] {
      assert a + b == a;
    } else {
      var b0, e := b[..|b| - 1], b[|b| - 1];
      assert b == b0 + [e];
      assert a + b == (a + b0) + [e];
      TransformConcat(g, root, a, b0);
      TransformSnoc(g, root, a + b0, e);
      var ta := Transform(g, root, a);
      if ta.Some? {
        TransformSnoc(ta.value.0, ta.value.1, b0, e);
      }
    }
  }

  /** Replaying one more edit is applying it to what the script before it left. */
  lemma {:induction false} TransformSnoc<L>(g: Nodes<L>, root: nat, s: seq<Edit>, e: Edit)
    requires Linked(g) && root in g.labels
    ensures var prev := Transform(g, root, s);
      Transform(g, root, s + [e]) == if prev.None? then None else Apply(prev.value.0, prev.value.1, e)
  {
    assert (s + [e])[..|s + [e]| - 1] == s;
    assert (s + [e])[|s + [e]| - 1] == e;
  }

  // ---- the replay, on the arena ----

  /** Renames the first node to the second node's label. */
  method RenameEdit<L>(arena: Arena<L>, first: nat, second: nat)
    requires arena.Valid() && first in arena.labels && second in arena.labels
    modifies arena
    ensures arena.Valid() && arena.next == old(arena.next)
    ensures arena.Graph() == RenameNode(old(arena.Graph()), first, second)
  {
    arena.SetLabel(first, arena.labels[second]);
  }

  /** Deletes a node, promoting its children; `false` where the replay traps. */
  method DeleteEdit<L>(arena: Arena<L>, deleted: nat) returns (ok: bool)
    requires arena.Valid() && deleted in arena.labels
    modifies arena
    ensures ok <==> DeleteNode(old(arena.Graph()), deleted).Some?
    ensures ok ==> arena.Valid() && arena.next == old(arena.next) && arena.Graph() == DeleteNode(old(arena.Graph()), deleted).value
  {
    var p := arena.parents[deleted];
    if p.None? {
      return false;
    }
    var parent := p.value;
    if deleted !in arena.children[parent] {
      return false;
    }
    var position := arena.PositionOfChild(parent, deleted);
    ghost var g0 := arena.Graph();
    ghost var kids := g0.children[deleted];
    ghost var promoted := Promote(g0.children[parent], kids, position);
    PromoteKeeps(g0.children[parent], kids, position);
    ghost var expected := Nodes(g0.labels, Reparent(g0.parents, kids, parent), g0.children[parent := Removed(promoted, deleted)]);
    assert DeleteNode(g0, deleted) == Some(expected);
    PromoteChildren(arena, parent, arena.children[deleted], position);
    arena.DeleteChild(parent, deleted);
    UpdateTwice(g0.children, parent, promoted, Removed(promoted, deleted));
    assert arena.Graph() == expected;
    ok := true;
  }

  /** Puts `kids`, last one first, at `position` among the parent's children, and makes the parent theirs. */
  method PromoteChildren<L>(arena: Arena<L>, parent: nat, kids: seq<nat>, position: nat)
    requires arena.Valid() && parent in arena.labels && position <= |arena.children[parent]|
    requires forall k :: k in kids ==> k in arena.labels
    modifies arena
    ensures arena.Valid() && arena.labels == old(arena.labels) && arena.next == old(arena.next)
    ensures arena.children == old(arena.children)[parent := Promote(old(arena.children[parent]), kids, position)]
    ensures arena.parents == Reparent(old(arena.parents), kids, parent)
  {
    ghost var g0 := arena.Graph();
    ghost var s := g0.children[parent];
    var i := |kids|;
    while i > 0
      invariant 0 <= i <= |kids| && arena.Valid() && arena.labels == g0.labels && arena.next == old(arena.next)
      invariant arena.children == g0.children[parent := Promote(s, kids[i..], position)]
      invariant arena.parents == Reparent(g0.parents, kids[i..], parent)
    {
      i := i - 1;
      PromoteStep(s, kids, i, position);
      ghost var before := Promote(s, kids[i + 1..], position);
      arena.AddChild(parent, kids[i], Some(position));
      UpdateTwice(g0.children, parent, before, Inserted(before, kids[i], Some(position)));
      arena.SetParent(kids[i], Some(parent));
      ReparentAdd(g0.parents, kids[i + 1..], kids[i..], kids[i], parent);
    }
  }

  /** A second update of the same key overrides the first. */
  lemma {:induction false} UpdateTwice<K, V>(m: map<K, V>, k: K, a: V, b: V)
    ensures m[k := a][k := b] == m[k := b]
  {
  }

  /** Promoting one more child, from the front, is one more insert at the same position. */
  lemma {:induction false} PromoteStep(s: seq<nat>, kids: seq<nat>, i: nat, pos: nat)
    requires i < |kids| && pos <= |s|
    ensures Promote(s, kids[i + 1..], pos) == Promote(s, kids[i..][1..], pos)
    ensures Promote(s, kids[i..], pos) == Inserted(Promote(s, kids[i + 1..], pos), kids[i], Some(pos))
  {
    assert kids[i..][1..] == kids[i + 1..];
  }

  /** Puts the inserted node above the root; the inserted node is the new root. */
  method InsertRootEdit<L>(arena: Arena<L>, root: nat, inserted: nat)
    requires arena.Valid() && root in arena.labels && inserted in arena.labels
    modifies arena
    ensures arena.Valid() && arena.next == old(arena.next)
    ensures arena.Graph() == InsertRoot(old(arena.Graph()), root, inserted)
  {
    arena.AddChild(inserted, root, Some(0));
    arena.SetParent(root, Some(inserted));
  }

  /** Scans the descendants for one child, moving it under the inserted node at each match. */
  method AdoptChild<L>(arena: Arena<L>, inserted: nat, child: nat, descendants: seq<nat>) returns (copies: seq<nat>)
    requires arena.Valid() && inserted in arena.labels && child in arena.labels
    modifies arena
    ensures arena.Valid() && arena.next == old(arena.next) && arena.labels == old(arena.labels)
    ensures copies == Copies(child, descendants)
    ensures var a := old(arena.children[inserted]);
      arena.children == old(arena.children)[inserted := if child in descendants then Inserted(a, child, Some(|a|)) else a]
    ensures arena.parents == Reparent(old(arena.parents), copies, inserted)
  {
    ghost var g0 := arena.Graph();
    ghost var a := g0.children[inserted];
    assert child in g0.parents;
    copies := [];
    for j := 0 to |descendants|
      invariant arena.Valid() && arena.labels == g0.labels && arena.next == old(arena.next)
      invariant copies == Copies(child, descendants[..j])
      invariant arena.children == g0.children[inserted := if child in descendants[..j] then Inserted(a, child, Some(|a|)) else a]
      invariant arena.parents == Reparent(g0.parents, copies, inserted)
    {
      copies := AdoptRound(arena, inserted, child, descendants, j, g0, copies);
    }
    assert descendants[..|descendants|] == descendants;
  }

  /** One round of the adoption loop: a descendant equal to the child adopts it once more. */
  method AdoptRound<L>(arena: Arena<L>, inserted: nat, child: nat, descendants: seq<nat>, j: nat,
                      ghost g0: Nodes<L>, copies0: seq<nat>) returns (copies: seq<nat>)
    requires arena.Valid() && inserted in g0.labels && child in g0.labels && j < |descendants|
    requires arena.labels == g0.labels && inserted in g0.children
    requires copies0 == Copies(child, descendants[..j])
    requires var a := g0.children[inserted];
      arena.children == g0.children[inserted := if child in descendants[..j] then Inserted(a, child, Some(|a|)) else a]
    requires arena.parents == Reparent(g0.parents, copies0, inserted)
    modifies arena
    ensures arena.Valid() && arena.labels == g0.labels && arena.next == old(arena.next)
    ensures copies == Copies(child, descendants[..j + 1])
    ensures var a := g0.children[inserted];
      arena.children == g0.children[inserted := if child in descendants[..j + 1] then Inserted(a, child, Some(|a|)) else a]
    ensures arena.parents == Reparent(g0.parents, copies, inserted)
  {
    CopiesStep(child, descendants, j);
    copies := copies0;
    if descendants[j] == child {
      ghost var before := arena.children[inserted];
      ReparentSnoc(g0.parents, copies, child, inserted);
      copies := copies + [child];
      AppendChild(arena, inserted, child);
      UpdateTwice(g0.children, inserted, before, Inserted(before, child, Some(|before|)));
    }
  }

  /** Moves `child` to the end of the children of `parent`, and makes `parent` its parent. */
  method AppendChild<L>(arena: Arena<L>, parent: nat, child: nat)
    requires arena.Valid() && parent in arena.labels && child in arena.labels
    modifies arena
    ensures arena.Valid() && arena.next == old(arena.next) && arena.labels == old(arena.labels)
    ensures var a := old(arena.children[parent]);
      arena.children == old(arena.children)[parent := Inserted(a, child, Some(|a|))]
    ensures arena.parents == old(arena.parents)[child := Some(parent)]
  {
    arena.AddChild(parent, child, Some(|arena.children[parent]|));
    arena.SetParent(child, Some(parent));
  }

  /** One more descendant scanned is one more possible copy. */
  lemma {:induction false} CopiesStep(c: nat, ds: seq<nat>, j: nat)
    requires j < |ds|
    ensures Copies(c, ds[..j + 1]) == Copies(c, ds[..j]) + (if ds[j] == c then [c] else [])
    ensures forall x :: x in ds[..j + 1] <==> x in ds[..j] || x == ds[j]
  {
    assert ds[..j + 1][..j] == ds[..j];
  }

  /** One more child scanned is one more round of matching and adopting. */
  lemma {:induction false} AdoptStep(ins: seq<nat>, kids: seq<nat>, ds: seq<nat>, i: nat)
    requires i < |kids|
    ensures Matching(kids[..i + 1], ds) == Matching(kids[..i], ds) + Copies(kids[i], ds)
    ensures var a := AdoptInto(ins, kids[..i], ds);
      AdoptInto(ins, kids[..i + 1], ds) == if kids[i] in ds then Inserted(a, kids[i], Some(|a|)) else a
  {
    assert kids[..i + 1][..i] == kids[..i];
  }

  /** Reparenting in two rounds is reparenting once, all together. */
  lemma {:induction false} ReparentThen(ps: map<nat, Option<nat>>, a: seq<nat>, b: seq<nat>, p: nat)
    ensures Reparent(Reparent(ps, a, p), b, p) == Reparent(ps, a + b, p)
  {
  }

  /** Moves the named children of the parent under the inserted node, as the replay's first scan does. */
  method AdoptDescendants<L>(arena: Arena<L>, inserted: nat, parent: nat, e: Edit) returns (ok: bool, toRemove: seq<nat>)
    requires arena.Valid() && inserted in arena.labels && parent in arena.labels
    modifies arena
    ensures ok <==> e.descendants.Some? || old(arena.children[parent]) == []
    ensures var ds := if e.descendants.Some? then e.descendants.value else [];
      ok ==> && arena.Valid() && arena.next == old(arena.next)
             && toRemove == Matching(old(arena.children[parent]), ds)
             && arena.Graph() == Adopted(old(arena.Graph()), inserted, parent, ds)
  {
    ghost var g0 := arena.Graph();
    var kids := arena.children[parent];
    ChildrenOf(g0, parent);
    ghost var ds := if e.descendants.Some? then e.descendants.value else [];
    toRemove := [];
    for i := 0 to |kids|
      invariant arena.Valid() && arena.labels == g0.labels && arena.next == old(arena.next)
      invariant i > 0 ==> e.descendants.Some?
      invariant toRemove == Matching(kids[..i], ds)
      invariant arena.children == g0.children[inserted := AdoptInto(g0.children[inserted], kids[..i], ds)]
      invariant arena.parents == Reparent(g0.parents, toRemove, inserted)
    {
      if e.descendants.None? {
        return false, toRemove;
      }
      ghost var a := AdoptInto(g0.children[inserted], kids[..i], ds);
      ghost var before := toRemove;
      var copies := AdoptChild(arena, inserted, kids[i], e.descendants.value);
      toRemove := toRemove + copies;
      UpdateTwice(g0.children, inserted, a, if kids[i] in ds then Inserted(a, kids[i], Some(|a|)) else a);
      ReparentThen(g0.parents, before, copies, inserted);
      AdoptStep(g0.children[inserted], kids, ds, i);
    }
    assert kids[..|kids|] == kids;
    ok := true;
  }

  /** Detaches each of `toRemove` from the parent in turn, as the replay's second scan does. */
  method DetachAll<L>(arena: Arena<L>, parent: nat, toRemove: seq<nat>) returns (ok: bool)
    requires arena.Valid() && parent in arena.labels
    modifies arena
    ensures ok <==> Detached(old(arena.Graph()), parent, toRemove).Some?
    ensures ok ==> arena.Valid() && arena.next == old(arena.next) && arena.Graph() == Detached(old(arena.Graph()), parent, toRemove).value
  {
    ghost var g0 := arena.Graph();
    ghost var rest := g0.children[parent];
    for k := 0 to |toRemove|
      invariant arena.Valid() && arena.labels == g0.labels && arena.parents == g0.parents && arena.next == old(arena.next)
      invariant RemoveAll(g0.children[parent], toRemove[..k]) == Some(rest)
      invariant arena.children == g0.children[parent := rest]
    {
      RemoveAllStep(g0.children[parent], toRemove, k, rest);
      if toRemove[k] !in arena.children[parent] {
        RemoveAllNone(g0.children[parent], toRemove, k + 1);
        return false;
      }
      arena.DeleteChild(parent, toRemove[k]);
      UpdateTwice(g0.children, parent, rest, Removed(rest, toRemove[k]));
      rest := Removed(rest, toRemove[k]);
    }
    assert toRemove[..|toRemove|] == toRemove;
    ok := true;
  }

  /** Puts the inserted node among the parent's children at the edit's index, as the replay's last step does. */
  method PlaceInserted<L>(arena: Arena<L>, inserted: nat, parent: nat, position: nat, childrenCount: nat) returns (ok: bool)
    requires arena.Valid() && inserted in arena.labels && parent in arena.labels
    modifies arena
    ensures ok <==> Placed(old(arena.Graph()), inserted, parent, position, childrenCount).Some?
    ensures ok ==> arena.Valid() && arena.next == old(arena.next)
                   && arena.Graph() == Placed(old(arena.Graph()), inserted, parent, position, childrenCount).value
  {
    ghost var g0 := arena.Graph();
    var index := InsertIndex(|arena.children[parent]|, position, childrenCount);
    if inserted !in arena.children[parent] && index > |arena.children[parent]| {
      return false;
    }
    ghost var expected := Nodes(g0.labels, g0.parents[inserted := Some(parent)], g0.children[parent := Inserted(g0.children[parent], inserted, Some(index))]);
    assert Placed(g0, inserted, parent, position, childrenCount) == Some(expected);
    arena.AddChild(parent, inserted, Some(index));
    arena.SetParent(inserted, Some(parent));
    assert arena.Graph() == expected;
    ok := true;
  }

  /** Removing one more child continues from what the earlier removals left. */
  lemma {:induction false} RemoveAllStep(s: seq<nat>, xs: seq<nat>, k: nat, rest: seq<nat>)
    requires k < |xs| && RemoveAll(s, xs[..k]) == Some(rest)
    ensures RemoveAll(s, xs[..k + 1]) == if xs[k] in rest then Some(Removed(rest, xs[k])) else None
  {
    assert xs[..k + 1][..k] == xs[..k];
  }

  /** A removal that fails on a prefix fails on the whole list. */
  lemma {:induction false} RemoveAllNone(s: seq<nat>, xs: seq<nat>, k: nat)
    requires k <= |xs| && RemoveAll(s, xs[..k]).None?
    ensures RemoveAll(s, xs).None?
    decreases |xs| - k
  {
    if k < |xs| {
      assert xs[..k + 1][..k] == xs[..k];
      RemoveAllNone(s, xs, k + 1);
    } else {
      assert xs[..k] == xs;
    }
  }

  /** Inserts a node under a parent, adopting the named children; `false` where the replay traps. */
  method InsertUnderEdit<L>(arena: Arena<L>, inserted: nat, parent: nat, e: Edit) returns (ok: bool)
    requires arena.Valid() && inserted in arena.labels && parent in arena.labels
    modifies arena
    ensures ok <==> InsertUnder(old(arena.Graph()), inserted, parent, e).Some?
    ensures ok ==> arena.Valid() && arena.next == old(arena.next) && arena.Graph() == InsertUnder(old(arena.Graph()), inserted, parent, e).value
  {
    InsertUnderSteps(arena.Graph(), inserted, parent, e);
    var adopted, toRemove := AdoptDescendants(arena, inserted, parent, e);
    if !adopted {
      return false;
    }
    ok := DetachAll(arena, parent, toRemove);
    if !ok {
      return false;
    }
    if e.position.None? || e.childrenCount.None? {
      return false;
    }
    ok := PlaceInserted(arena, inserted, parent, e.position.value, e.childrenCount.value);
  }

  /** An insert under a parent is its two scans followed by the placement, when its fields are set. */
  lemma {:induction false} InsertUnderSteps<L>(g: Nodes<L>, inserted: nat, parent: nat, e: Edit)
    requires Linked(g) && inserted in g.labels && parent in g.labels
    ensures var ds := if e.descendants.Some? then e.descendants.value else [];
      var d := Detached(Adopted(g, inserted, parent, ds), parent, Matching(g.children[parent], ds));
      e.position.Some? && e.childrenCount.Some? && (e.descendants.Some? || g.children[parent] == []) ==>
        InsertUnder(g, inserted, parent, e) == if d.None? then None else Placed(d.value, inserted, parent, e.position.value, e.childrenCount.value)
  {
  }

  /** Applies one edit; `None` where the replay traps, otherwise the root it leaves. */
  method ApplyEdit<L>(arena: Arena<L>, root: nat, e: Edit) returns (r: Option<nat>)
    requires arena.Valid() && root in arena.labels && InArena(arena.labels.Keys, e)
    modifies arena
    ensures var a := Apply(old(arena.Graph()), root, e);
      (r.Some? <==> a.Some?) && (r.Some? ==> arena.Valid() && arena.next == old(arena.next) && arena.Graph() == a.value.0 && r.value == a.value.1)
  {
    match e.op
    case Insert =>
      if e.secondNode.Some? {
        var ok := InsertUnderEdit(arena, e.firstNode, e.secondNode.value, e);
        r := if ok then Some(root) else None;
      } else {
        InsertRootEdit(arena, root, e.firstNode);
        r := Some(e.firstNode);
      }
    case Delete =>
      var ok := DeleteEdit(arena, e.firstNode);
      r := if ok then Some(root) else None;
    case Rename =>
      if e.secondNode.None? {
        r := None;
      } else {
        RenameEdit(arena, e.firstNode, e.secondNode.value);
        r := Some(root);
      }
  }

  /** Replays an edit script on the tree under `root`; `None` where the replay traps. */
  method TransformTree<L>(arena: Arena<L>, root: nat, edits: seq<Edit>) returns (r: Option<nat>)
    requires arena.Valid() && root in arena.labels && Targets(arena.labels.Keys, edits)
    modifies arena
    ensures var t := Transform(old(arena.Graph()), root, edits);
      (r.Some? <==> t.Some?) && (r.Some? ==> arena.Valid() && arena.Graph() == t.value.0 && r.value == t.value.1)
  {
    ghost var g0 := arena.Graph();
    var cur := root;
    for i := 0 to |edits|
      invariant arena.Valid() && arena.labels.Keys == g0.labels.Keys && cur in arena.labels
      invariant Transform(g0, root, edits[..i]) == Some((arena.Graph(), cur))
    {
      TransformStep(g0, root, edits, i, arena.Graph(), cur);
      var step := ApplyEdit(arena, cur, edits[i]);
      if step.None? {
        TransformNone(g0, root, edits, i + 1);
        return None;
      }
      cur := step.value;
    }
    assert edits[..|edits|] == edits;
    r := Some(cur);
  }

  /** Replaying one more edit of the script is applying it to what the shorter replay left. */
  lemma {:induction false} TransformStep<L>(g: Nodes<L>, root: nat, edits: seq<Edit>, i: nat, g1: Nodes<L>, r1: nat)
    requires Linked(g) && root in g.labels
    requires i < |edits| && Transform(g, root, edits[..i]) == Some((g1, r1))
    ensures Linked(g1) && r1 in g1.labels
    ensures Transform(g, root, edits[..i + 1]) == Apply(g1, r1, edits[i])
  {
    var pre := edits[..i + 1];
    assert pre[..|pre| - 1] == edits[..i];
    assert pre[|pre| - 1] == edits[i];
  }

  /** A replay that traps on a prefix of the script traps on the whole script. */
  lemma {:induction false} TransformNone<L>(g: Nodes<L>, root: nat, edits: seq<Edit>, k: nat)
    requires Linked(g) && root in g.labels
    requires k <= |edits| && Transform(g, root, edits[..k]).None?
    ensures Transform(g, root, edits).None?
    decreases |edits| - k
  {
    if k < |edits| {
      assert edits[..k + 1][..k] == edits[..k];
      TransformNone(g, root, edits, k + 1);
    } else {
      assert edits[..k] == edits;
    }
  }
}
