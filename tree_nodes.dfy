/**
 * Tree nodes (Sources/TreeDistance/TreeNode.swift) as an arena: every node is an integer
 * id, and the arena keeps each node's label, parent and ordered children. Node equality
 * is identity, which here is equality of ids; a new node gets an id never used before.
 * The children of a node form an ordered set: a sequence without duplicates, and adding a
 * node that is already a child changes nothing.
 */
module TreeNodes {
  import opened Wrappers

  /** No element occurs twice. */
  predicate NoDup<T(==)>(s: seq<T>)
  {
    forall i, j :: 0 <= i < j < |s| ==> s[i] != s[j]
  }

  /** The index of the first occurrence of `c` in `s`. */
  function IndexOf<T(==)>(s: seq<T>, c: T): (i: nat)
    requires c in s
    ensures i < |s| && s[i] == c && c !in s[..i]
  {
    if s[0] == c then 0 else 1 + IndexOf(s[1..], c)
  }

  /**
   * The ordered set `s` after inserting `c` at `position` (appending when there is no
   * position); a member already present stays where it is.
   */
  function Inserted<T(==)>(s: seq<T>, c: T, position: Option<nat>): seq<T>
    requires position.Some? && c !in s ==> position.value <= |s|
  {
    if c in s then s
    else if position.None? then s + [c]
    else s[..position.value] + [c] + s[position.value..]
  }

  /** `s` without the first occurrence of `c`. */
  function Removed<T(==)>(s: seq<T>, c: T): seq<T>
    requires c in s
  {
    s[..IndexOf(s, c)] + s[IndexOf(s, c) + 1..]
  }

  /**
   * Inserting keeps the set free of duplicates and makes `c` a member; a new member lands
   * at the requested position (or last), and every other member keeps its relative order.
   */
  lemma {:induction false} InsertedFacts<T>(s: seq<T>, c: T, position: Option<nat>)
    requires NoDup(s) && (position.Some? && c !in s ==> position.value <= |s|)
    ensures var r := Inserted(s, c, position);
      && NoDup(r) && c in r && multiset(r) == multiset(s) + (if c in s then multiset{} else multiset{c})
      && (c !in s ==> r[if position.Some? then position.value else |s|] == c && Removed(r, c) == s)
  {
    if c !in s {
      var p := if position.Some? then position.value else |s|;
      assert s[..p] + [c] + s[p..] == Inserted(s, c, position);
      InsertAt(s, c, p);
    }
  }

  /** Inserting a non-member at `p`: `c` lands at `p`, nothing repeats, and removing `c` gives `s` back. */
  lemma {:induction false} InsertAt<T>(s: seq<T>, c: T, p: nat)
    requires NoDup(s) && c !in s && p <= |s|
    ensures var r := s[..p] + [c] + s[p..];
      NoDup(r) && r[p] == c && multiset(r) == multiset(s) + multiset{c} && Removed(r, c) == s
  {
    var r := s[..p] + [c] + s[p..];
    assert s == s[..p] + s[p..];
    assert r[..p] == s[..p] && r[p + 1..] == s[p..] && r[p] == c;
    assert IndexOf(r, c) == p by {
      var q := IndexOf(r, c);
      assert q <= p by { assert r[p] == c; }
      assert q >= p by { assert c !in r[..p]; }
    }
    InsertKeepsSet(s, c, p);
  }

  lemma {:induction false} InsertKeepsSet<T>(s: seq<T>, c: T, p: nat)
    requires NoDup(s) && c !in s && p <= |s|
    ensures NoDup(s[..p] + [c] + s[p..])
  {
    var r := s[..p] + [c] + s[p..];
    forall i, j | 0 <= i < j < |r| ensures r[i] != r[j] {
      if j == p { assert r[i] == s[i]; }
      else if i == p { assert r[j] == s[j - 1]; }
      else if j < p { assert r[i] == s[i] && r[j] == s[j]; }
      else if i < p { assert r[i] == s[i] && r[j] == s[j - 1]; }
      else { assert r[i] == s[i - 1] && r[j] == s[j - 1]; }
    }
  }

  /**
   * Removing a member drops exactly that member: the rest keep their relative order, no
   * duplicate appears, and `c` is no longer a member.
   */
  lemma {:induction false} RemovedFacts<T>(s: seq<T>, c: T)
    requires NoDup(s) && c in s
    ensures var r := Removed(s, c);
      && NoDup(r) && c !in r && |r| == |s| - 1 && multiset(r) == multiset(s) - multiset{c}
  {
    var p := IndexOf(s, c);
    var r := Removed(s, c);
    assert s == s[..p] + [c] + s[p + 1..];
    forall i | 0 <= i < |r| ensures r[i] != c {
      if i < p { assert r[i] == s[i]; } else { assert r[i] == s[i + 1]; }
    }
    forall i, j | 0 <= i < j < |r| ensures r[i] != r[j] {
      if j < p { assert r[i] == s[i] && r[j] == s[j]; }
      else if i < p { assert r[i] == s[i] && r[j] == s[j + 1]; }
      else { assert r[i] == s[i + 1] && r[j] == s[j + 1]; }
    }
  }

  /** Inserting keeps every member, and adds nothing but `c`. */
  lemma {:induction false} InsertedMembers<T>(s: seq<T>, c: T, position: Option<nat>)
    requires position.Some? && c !in s ==> position.value <= |s|
    ensures forall x :: x in s ==> x in Inserted(s, c, position)
    ensures forall x :: x in Inserted(s, c, position) ==> x in s || x == c
  {
    if c !in s && position.Some? {
      var p := position.value;
      assert s == s[..p] + s[p..];
    }
  }

  /** Removing `c` keeps every other member and adds none. */
  lemma {:induction false} RemovedMembers<T>(s: seq<T>, c: T)
    requires c in s
    ensures forall x :: x in s && x != c ==> x in Removed(s, c)
    ensures forall x :: x in Removed(s, c) ==> x in s
  {
    var p := IndexOf(s, c);
    assert s == s[..p] + [c] + s[p + 1..];
  }

  /** The nodes of an arena: each node's label, parent link and ordered children, by id. */
  datatype Nodes<L> = Nodes(labels: map<nat, L>, parents: map<nat, Option<nat>>, children: map<nat, seq<nat>>)

  /**
   * Every node has a label, a parent slot and a children list; parent links and children
   * name nodes of the arena; the children of a node form a set.
   */
  predicate Closed<L>(g: Nodes<L>)
  {
    && g.labels.Keys == g.parents.Keys == g.children.Keys
    && (forall n :: n in g.parents && g.parents[n].Some? ==> g.parents[n].value in g.labels)
    && (forall n, c :: n in g.children && c in g.children[n] ==> c in g.labels)
    && (forall n :: n in g.children ==> NoDup(g.children[n]))
  }

  /** Giving one node a new set of arena children keeps the nodes closed. */
  lemma {:induction false} SetChildrenClosed<L>(g: Nodes<L>, n: nat, s: seq<nat>)
    requires Closed(g) && n in g.children && NoDup(s) && forall x :: x in s ==> x in g.labels
    ensures Closed(g.(children := g.children[n := s]))
  {
  }

  /** Adding an arena node as a child keeps the nodes closed. */
  lemma {:induction false} AddChildClosed<L>(g: Nodes<L>, n: nat, c: nat, position: Option<nat>)
    requires Closed(g) && n in g.children && c in g.labels
    requires position.Some? && c !in g.children[n] ==> position.value <= |g.children[n]|
    ensures Closed(g.(children := g.children[n := Inserted(g.children[n], c, position)]))
  {
    var r := Inserted(g.children[n], c, position);
    InsertedFacts(g.children[n], c, position);
    InsertedMembers(g.children[n], c, position);
    SetChildrenClosed(g, n, r);
  }

  /** Removing a child keeps the nodes closed. */
  lemma {:induction false} DeleteChildClosed<L>(g: Nodes<L>, n: nat, c: nat)
    requires Closed(g) && n in g.children && c in g.children[n]
    ensures Closed(g.(children := g.children[n := Removed(g.children[n], c)]))
  {
    var r := Removed(g.children[n], c);
    RemovedFacts(g.children[n], c);
    RemovedMembers(g.children[n], c);
    SetChildrenClosed(g, n, r);
  }

  /** A node arena: labels, parents and children lists by id, and the next unused id. */
  class Arena<L> {
    var labels: map<nat, L>
    var parents: map<nat, Option<nat>>
    var children: map<nat, seq<nat>>
    var next: nat

    /** The arena's nodes as a value. */
    function Graph(): Nodes<L>
      reads this
    {
      Nodes(labels, parents, children)
    }

    /** The nodes are closed under their links, and every id in use is below the next one. */
    ghost predicate Valid()
      reads this
    {
      Closed(Graph()) && forall n :: n in labels ==> n < next
    }

    /** An empty arena. */
    constructor ()
      ensures Valid() && labels == map[] && parents == map[] && children == map[] && next == 0
    {
      labels, parents, children, next := map[], map[], map[], 0;
    }

    /** A new node with `lbl`, no parent and no children, under an id never used before. */
    method NewNode(lbl: L) returns (n: nat)
      requires Valid()
      modifies this
      ensures Valid() && n == old(next) && next == n + 1 && n !in old(labels)
      ensures labels == old(labels)[n := lbl] && parents == old(parents)[n := None]
      ensures children == old(children)[n := []]
    {
      n := next;
      labels, parents, children := labels[n := lbl], parents[n := None], children[n := []];
      next := next + 1;
    }

    /** `clone()`: a new node carrying only the label of `n`. */
    method Clone(n: nat) returns (c: nat)
      requires Valid() && n in labels
      modifies this
      ensures Valid() && c == old(next) && next == c + 1 && c !in old(labels) && c != n
      ensures labels == old(labels)[c := old(labels)[n]] && parents == old(parents)[c := None]
      ensures children == old(children)[c := []]
    {
      c := NewNode(labels[n]);
    }

    /**
     * `addChild(child:position:)`: inserts `c` among the children of `n` at `position`, or
     * appends it; a node that is already a child stays where it is.
     */
    method AddChild(n: nat, c: nat, position: Option<nat>)
      requires Valid() && n in children && c in labels
      requires position.Some? && c !in children[n] ==> position.value <= |children[n]|
      modifies this
      ensures Valid() && labels == old(labels) && parents == old(parents) && next == old(next)
      ensures children == old(children)[n := Inserted(old(children[n]), c, position)]
    {
      AddChildClosed(Graph(), n, c, position);
      children := children[n := Inserted(children[n], c, position)];
    }

    /** `positionOfChild`: the index of `c` among the children of `n`, which it must be one of. */
    function PositionOfChild(n: nat, c: nat): (i: nat)
      reads this
      requires n in children && c in children[n]
      ensures i < |children[n]| && children[n][i] == c && c !in children[n][..i]
    {
      IndexOf(children[n], c)
    }

    /** `deleteChild`: removes `c`, which must be a child of `n`, from the children of `n`. */
    method DeleteChild(n: nat, c: nat)
      requires Valid() && n in children && c in children[n]
      modifies this
      ensures Valid() && labels == old(labels) && parents == old(parents) && next == old(next)
      ensures children == old(children)[n := Removed(old(children[n]), c)]
    {
      DeleteChildClosed(Graph(), n, c);
      var p := PositionOfChild(n, c);
      children := children[n := children[n][..p] + children[n][p + 1..]];
    }

    /** Sets the parent link of `n`. */
    method SetParent(n: nat, p: Option<nat>)
      requires Valid() && n in labels && (p.Some? ==> p.value in labels)
      modifies this
      ensures Valid() && labels == old(labels) && children == old(children) && next == old(next)
      ensures parents == old(parents)[n := p]
    {
      parents := parents[n := p];
    }

    /** Sets the label of `n`. */
    method SetLabel(n: nat, lbl: L)
      requires Valid() && n in labels
      modifies this
      ensures Valid() && parents == old(parents) && children == old(children) && next == old(next)
      ensures labels == old(labels)[n := lbl]
    {
      labels := labels[n := lbl];
    }
  }
}
