/**
 * The test suite's string trees (Tests/TreeDistanceTests/StringTreeNode.swift): trees
 * labelled by strings, the unit cost function, the `treeString` serialisation
 * `label(child,child,...)`, and the `fromString` parser that reads it back.
 *
 * The parser reads one character at a time. A character that is not a delimiter replaces
 * the pending label, so every label it builds has at most one character; `(` turns the
 * pending label into a node and reads its children up to the matching `)`; `,` and `)` turn
 * a pending label into a leaf child of the node being read. Node identities come from a
 * counter `next`, standing in for the fresh identity of every node the Swift code allocates.
 */
module StringTrees {
  import opened Wrappers
  import opened Operations
  import opened Trees
  import opened Trails
  import opened CellFacts
  import opened TreeDistances

  // ---- the unit cost ----

  /** `String.transformationCost`: a rename costs nothing between equal labels, every other edit costs one. */
  function UnitCost(lbl: string, op: TreeOperation, other: Option<string>): (r: nat)
    ensures r <= 1
    ensures op == Rename ==> (r == 0 <==> other == Some(lbl))
    ensures op != Rename ==> r == 1
  {
    match op
    case Rename => if other == Some(lbl) then 0 else 1
    case Insert => 1
    case Delete => 1
  }

  /** Renaming a label into itself is free under the unit cost. */
  lemma {:induction false} UnitCostFreeSelfRename()
    ensures FreeSelfRename(UnitCost)
  {
    forall a: string ensures UnitCost(a, Rename, Some(a)) == 0 {
    }
  }

  /** Under the unit cost every tree is at distance zero from itself. */
  lemma {:induction false} UnitDistanceToSelf(t: Tree<string>)
    ensures TotalCost(DistanceTrail(t, t, UnitCost)) == Fin(0)
  {
    UnitCostFreeSelfRename();
    DistanceToSelf(t, UnitCost);
  }

  // ---- treeString ----

  /** `treeString`: the label, then the children's strings joined by commas in parentheses, if there are any. */
  function TreeString(t: Tree<string>): string
  {
    if t.children == [] then t.lbl else t.lbl + "(" + Joined(t.children) + ")"
  }

  /** The strings of a forest, joined by commas. */
  function Joined(cs: seq<Tree<string>>): string
  {
    if cs == [] then ""
    else if |cs| == 1 then TreeString(cs[0])
    else TreeString(cs[0]) + "," + Joined(cs[1..])
  }

  /** A tree with every identity erased: what two trees with the same labels in the same shape share. */
  function Shape(t: Tree<string>): Tree<string>
  {
    Node(0, t.lbl, ShapeF(t.children))
  }

  function ShapeF(cs: seq<Tree<string>>): (r: seq<Tree<string>>)
    ensures |r| == |cs|
  {
    if cs == [] then [] else [Shape(cs[0])] + ShapeF(cs[1..])
  }

  /** `treeString` ignores identities. */
  lemma {:induction false} ShapeString(t: Tree<string>)
    ensures TreeString(Shape(t)) == TreeString(t)
    decreases t, 1
  {
    ShapeJoined(t.children);
  }

  lemma {:induction false} ShapeJoined(cs: seq<Tree<string>>)
    ensures Joined(ShapeF(cs)) == Joined(cs)
    decreases cs, 0
  {
    if cs != [] {
      var s := ShapeF(cs);
      assert s[0] == Shape(cs[0]) && s[1..] == ShapeF(cs[1..]);
      ShapeString(cs[0]);
      ShapeJoined(cs[1..]);
    }
  }

  /** A delimiter of the serialisation. */
  predicate Delimiter(c: char)
  {
    c == '(' || c == ',' || c == ')'
  }

  /** Every label is one character other than a delimiter: the trees `treeString` and `fromString` agree on. */
  predicate Simple(t: Tree<string>)
  {
    |t.lbl| == 1 && !Delimiter(t.lbl[0]) && forall i :: 0 <= i < |t.children| ==> Simple(t.children[i])
  }

  // ---- fromString ----

  /**
   * What one call of the nested reader returns: the children it added to the node under
   * which it reads (in order), the node it returns, if any, the input left, and the next
   * unused identity. `Trapped` is a force-unwrap of a missing parent.
   */
  datatype Scan = Trapped | Scanned(kids: seq<Tree<string>>, result: Option<Tree<string>>, rest: string, next: nat)

  /** The reader's exit: a pending label becomes the returned leaf. */
  function Finish(node: string, kids: seq<Tree<string>>, rest: string, next: nat): Scan
  {
    if node != "" then Scanned(kids, Some(Node(next, node, [])), rest, next + 1) else Scanned(kids, None, rest, next)
  }

  /** The nested reader `f(parent:)`, with `hasParent` telling whether it reads under a node. */
  function Read(tree: string, hasParent: bool, next: nat): (r: Scan)
    ensures r.Scanned? ==> |r.rest| <= |tree| && r.next >= next
    decreases |tree|, 1
  {
    ReadFrom(tree, "", hasParent, [], next)
  }

  /** The reader's loop from the state with input `tree`, pending label `node` and children `kids` added so far. */
  function ReadFrom(tree: string, node: string, hasParent: bool, kids: seq<Tree<string>>, next: nat): (r: Scan)
    ensures r.Scanned? ==> |r.rest| <= |tree| && r.next >= next
    decreases |tree|, 0
  {
    if tree == [] then Finish(node, kids, tree, next)
    else
      var c := tree[0];
      if c == '(' then
        var sub := Read(tree[1..], true, next + 1);
        if sub.Trapped? then Trapped
        else
          var cur := Node(next, node, sub.kids);
          if hasParent then ReadFrom(sub.rest, "", hasParent, kids + [cur], sub.next)
          else Scanned(kids, Some(cur), sub.rest, sub.next)
      else if c == ',' || c == ')' then
        if node != "" && !hasParent then Trapped
        else if node != "" then
          var leaf := Node(next, node, []);
          if c == ')' then Finish("", kids + [leaf], tree[1..], next + 1)
          else ReadFrom(tree[1..], "", hasParent, kids + [leaf], next + 1)
        else if c == ')' then Finish("", kids, tree[1..], next)
        else ReadFrom(tree[1..], "", hasParent, kids, next)
      else ReadFrom(tree[1..], [c], hasParent, kids, next)
  }

  /**
   * `fromString`: the node the top-level reader returns, with identities allocated from
   * `start`; `None` where the Swift code traps.
   */
  function Parse(s: string, start: nat): Option<Tree<string>>
  {
    var r := Read(s, false, start);
    if r.Scanned? && r.result.Some? then Some(r.result.value) else None
  }

  /** The first identity still unused after `fromString` has read `s` from `start`. */
  function ParseNext(s: string, start: nat): (r: nat)
    ensures r >= start
  {
    var r := Read(s, false, start);
    if r.Scanned? then r.next else start
  }

  /** The nested reader, consuming the input one character at a time. */
  method ReadNode(tree0: string, hasParent: bool, next0: nat) returns (r: Scan)
    ensures r == Read(tree0, hasParent, next0)
    decreases |tree0|
  {
    var tree, next := tree0, next0;
    var node := "";
    var kids: seq<Tree<string>> := [];
    while tree != []
      invariant |tree| <= |tree0|
      invariant ReadFrom(tree, node, hasParent, kids, next) == Read(tree0, hasParent, next0)
      decreases |tree|
    {
      var c := tree[0];
      tree := tree[1..];
      if c == '(' {
        var cur := node;
        node := "";
        var sub := ReadNode(tree, true, next + 1);
        if sub.Trapped? {
          return Trapped;
        }
        var made := Node(next, cur, sub.kids);
        tree, next := sub.rest, sub.next;
        if hasParent {
          kids := kids + [made];
        } else {
          return Scanned(kids, Some(made), tree, next);
        }
      } else if c == ',' || c == ')' {
        if node != "" {
          if !hasParent {
            return Trapped;
          }
          kids := kids + [Node(next, node, [])];
          next := next + 1;
          node := "";
        }
        if c == ')' {
          break;
        }
      } else {
        node := [c];
      }
    }
    r := Finish(node, kids, tree, next);
  }

  /**
   * `fromString`: reads the whole string with no parent, allocating identities from `start`;
   * `None` where the Swift code traps. Every node of the result is new: its identities are
   * distinct and lie between `start` and the returned `next`.
   */
  method FromString(s: string, start: nat) returns (r: Option<Tree<string>>, next: nat)
    ensures r == Parse(s, start) && next == ParseNext(s, start)
    ensures r.Some? ==> DistinctIds(r.value) && forall k :: 0 <= k < Size(r.value) ==> start <= Post(r.value)[k].id < next
  {
    var scan := ReadNode(s, false, start);
    ParseDistinct(s, start);
    if scan.Trapped? {
      return None, start;
    }
    next := scan.next;
    if scan.result.None? {
      return None, next;
    }
    r := Some(scan.result.value);
  }

  // ---- what the parser builds ----

  /** Every label has at most one character. */
  predicate ShortLabels(t: Tree<string>)
  {
    |t.lbl| <= 1 && forall i :: 0 <= i < |t.children| ==> ShortLabels(t.children[i])
  }

  predicate AllShort(cs: seq<Tree<string>>)
  {
    forall i :: 0 <= i < |cs| ==> ShortLabels(cs[i])
  }

  /** A non-delimiter replaces the pending label, so the reader only builds labels of at most one character. */
  lemma {:induction false} ReadShort(tree: string, hasParent: bool, next: nat)
    ensures var r := Read(tree, hasParent, next);
      r.Scanned? ==> AllShort(r.kids) && (r.result.Some? ==> ShortLabels(r.result.value))
    decreases |tree|, 1
  {
    ReadFromShort(tree, "", hasParent, [], next);
  }

  lemma {:induction false} ReadFromShort(tree: string, node: string, hasParent: bool, kids: seq<Tree<string>>, next: nat)
    requires |node| <= 1 && AllShort(kids)
    ensures var r := ReadFrom(tree, node, hasParent, kids, next);
      r.Scanned? ==> AllShort(r.kids) && (r.result.Some? ==> ShortLabels(r.result.value))
    decreases |tree|, 0
  {
    if tree != [] {
      var c := tree[0];
      if c == '(' {
        var sub := Read(tree[1..], true, next + 1);
        ReadShort(tree[1..], true, next + 1);
        if sub.Scanned? {
          var cur := Node(next, node, sub.kids);
          assert ShortLabels(cur);
          if hasParent {
            ReadFromShort(sub.rest, "", hasParent, kids + [cur], sub.next);
          }
        }
      } else if c == ',' || c == ')' {
        var leaf := Node(next, node, []);
        assert ShortLabels(leaf);
        if node != "" && c != ')' {
          ReadFromShort(tree[1..], "", hasParent, kids + [leaf], next + 1);
        } else if c != ')' {
          ReadFromShort(tree[1..], "", hasParent, kids, next);
        }
      } else {
        ReadFromShort(tree[1..], [c], hasParent, kids, next);
      }
    }
  }

  /** Every label `fromString` builds has at most one character. */
  lemma {:induction false} ParseShort(s: string, start: nat)
    ensures Parse(s, start).Some? ==> ShortLabels(Parse(s, start).value)
  {
    ReadShort(s, false, start);
  }

  /** With no `(` in the input the top-level reader never builds an inner node: the result is a single leaf. */
  lemma {:induction false} ParseWithoutParentheses(s: string, start: nat)
    requires '(' !in s
    ensures Parse(s, start).Some? ==> Parse(s, start).value.children == [] && |Parse(s, start).value.lbl| == 1
  {
    LeafWithoutParentheses(s, "", start);
  }

  lemma {:induction false} LeafWithoutParentheses(tree: string, node: string, next: nat)
    requires '(' !in tree && |node| <= 1
    ensures var r := ReadFrom(tree, node, false, [], next);
      r.Scanned? && r.result.Some? ==> r.result.value.children == [] && |r.result.value.lbl| == 1
    decreases |tree|
  {
    if tree != [] {
      assert tree[0] != '(' && '(' !in tree[1..];
      if tree[0] != ',' && tree[0] != ')' {
        LeafWithoutParentheses(tree[1..], [tree[0]], next);
      } else if tree[0] == ',' && node == "" {
        LeafWithoutParentheses(tree[1..], "", next);
      }
    }
  }

  // ---- fresh identities ----

  /** The identities of a tree in preorder: the order in which the reader allocates them. */
  function PreIds(t: Tree<string>): seq<nat>
  {
    [t.id] + PreIdsF(t.children)
  }

  function PreIdsF(cs: seq<Tree<string>>): seq<nat>
  {
    if cs == [] then [] else PreIdsF(cs[..|cs| - 1]) + PreIds(cs[|cs| - 1])
  }

  function ResultIds(r: Option<Tree<string>>): seq<nat>
  {
    if r.Some? then PreIds(r.value) else []
  }

  /** Strictly increasing, every element in `[lo, hi)`. */
  predicate Increasing(s: seq<nat>, lo: nat, hi: nat)
  {
    (forall i :: 0 <= i < |s| ==> lo <= s[i] < hi) && forall i, j :: 0 <= i < j < |s| ==> s[i] < s[j]
  }

  lemma {:induction false} IncreasingConcat(a: seq<nat>, b: seq<nat>, lo: nat, mid: nat, hi: nat)
    requires Increasing(a, lo, mid) && Increasing(b, mid, hi) && lo <= mid <= hi
    ensures Increasing(a + b, lo, hi)
  {
    var s := a + b;
    forall i | 0 <= i < |s| ensures lo <= s[i] < hi {
      if i < |a| {
        assert s[i] == a[i];
      } else {
        assert s[i] == b[i - |a|];
      }
    }
    forall i, j | 0 <= i < j < |s| ensures s[i] < s[j] {
      if j < |a| {
        assert s[i] == a[i] && s[j] == a[j];
      } else if i < |a| {
        assert s[i] == a[i] && s[j] == b[j - |a|];
      } else {
        assert s[i] == b[i - |a|] && s[j] == b[j - |a|];
      }
    }
  }

  lemma {:induction false} IncreasingPrefix(a: seq<nat>, b: seq<nat>, lo: nat, hi: nat)
    requires Increasing(a + b, lo, hi)
    ensures Increasing(a, lo, hi)
  {
    forall i | 0 <= i < |a| ensures lo <= a[i] < hi {
      assert a[i] == (a + b)[i];
    }
    forall i, j | 0 <= i < j < |a| ensures a[i] < a[j] {
      assert a[i] == (a + b)[i] && a[j] == (a + b)[j];
    }
  }

  lemma {:induction false} IncreasingWiden(s: seq<nat>, lo: nat, hi: nat, hi': nat)
    requires Increasing(s, lo, hi) && hi <= hi'
    ensures Increasing(s, lo, hi')
  {
  }

  /** Adding one more child appends its identities. */
  lemma {:induction false} PreIdsSnoc(kids: seq<Tree<string>>, c: Tree<string>)
    ensures PreIdsF(kids + [c]) == PreIdsF(kids) + PreIds(c)
  {
    assert (kids + [c])[..|kids|] == kids;
  }

  /**
   * The reader allocates identities in increasing order from `next`: the children added so
   * far and the node returned carry increasing identities below the next unused one.
   */
  lemma {:induction false} ReadIds(tree: string, hasParent: bool, next: nat)
    ensures var r := Read(tree, hasParent, next);
      r.Scanned? ==> Increasing(PreIdsF(r.kids) + ResultIds(r.result), next, r.next)
    decreases |tree|, 1
  {
    ReadFromIds(tree, "", hasParent, [], next, next);
  }

  lemma {:induction false} ReadFromIds(tree: string, node: string, hasParent: bool, kids: seq<Tree<string>>, lo: nat, next: nat)
    requires lo <= next && Increasing(PreIdsF(kids), lo, next)
    ensures var r := ReadFrom(tree, node, hasParent, kids, next);
      r.Scanned? ==> Increasing(PreIdsF(r.kids) + ResultIds(r.result), lo, r.next)
    decreases |tree|, 0
  {
    if tree == [] {
      FinishIds(node, kids, tree, lo, next);
    } else {
      var c := tree[0];
      if c == '(' {
        var sub := Read(tree[1..], true, next + 1);
        if sub.Scanned? {
          ReadIds(tree[1..], true, next + 1);
          IncreasingPrefix(PreIdsF(sub.kids), ResultIds(sub.result), next + 1, sub.next);
          var cur := Node(next, node, sub.kids);
          IncreasingConcat([next], PreIdsF(sub.kids), next, next + 1, sub.next);
          assert PreIds(cur) == [next] + PreIdsF(sub.kids);
          IncreasingConcat(PreIdsF(kids), PreIds(cur), lo, next, sub.next);
          if hasParent {
            PreIdsSnoc(kids, cur);
            ReadFromIds(sub.rest, "", hasParent, kids + [cur], lo, sub.next);
          } else {
            assert ResultIds(Some(cur)) == PreIds(cur);
          }
        }
      } else if c == ',' || c == ')' {
        if node != "" && hasParent {
          var leaf := Node(next, node, []);
          assert PreIds(leaf) == [next] + PreIdsF([]);
          IncreasingConcat(PreIdsF(kids), PreIds(leaf), lo, next, next + 1);
          PreIdsSnoc(kids, leaf);
          if c == ')' {
            FinishIds("", kids + [leaf], tree[1..], lo, next + 1);
          } else {
            ReadFromIds(tree[1..], "", hasParent, kids + [leaf], lo, next + 1);
          }
        } else if node == "" {
          if c == ')' {
            FinishIds("", kids, tree[1..], lo, next);
          } else {
            ReadFromIds(tree[1..], "", hasParent, kids, lo, next);
          }
        }
      } else {
        ReadFromIds(tree[1..], [c], hasParent, kids, lo, next);
      }
    }
  }

  lemma {:induction false} FinishIds(node: string, kids: seq<Tree<string>>, rest: string, lo: nat, next: nat)
    requires lo <= next && Increasing(PreIdsF(kids), lo, next)
    ensures var r := Finish(node, kids, rest, next);
      r.Scanned? && Increasing(PreIdsF(r.kids) + ResultIds(r.result), lo, r.next)
  {
    if node != "" {
      var leaf := Node(next, node, []);
      assert PreIds(leaf) == [next] + PreIdsF([]);
      IncreasingConcat(PreIdsF(kids), PreIds(leaf), lo, next, next + 1);
    } else {
      assert PreIdsF(kids) + [] == PreIdsF(kids);
    }
  }

  /** The identities of a tree in postorder. */
  function PostIds(t: Tree<string>): (r: seq<nat>)
    ensures |r| == Size(t)
  {
    PostIdsF(t.children) + [t.id]
  }

  function PostIdsF(cs: seq<Tree<string>>): (r: seq<nat>)
    ensures |r| == SizeF(cs)
  {
    if cs == [] then [] else PostIdsF(cs[..|cs| - 1]) + PostIds(cs[|cs| - 1])
  }

  /** `PostIds` lists the identities of the postorder nodes, and holds the same identities as `PreIds`. */
  lemma {:induction false} PostIdsOfPost(t: Tree<string>)
    ensures forall i :: 0 <= i < Size(t) ==> PostIds(t)[i] == Post(t)[i].id
    ensures multiset(PostIds(t)) == multiset(PreIds(t))
    decreases t, 1
  {
    PostIdsOfPostF(t.children);
  }

  lemma {:induction false} PostIdsOfPostF(cs: seq<Tree<string>>)
    ensures forall i :: 0 <= i < SizeF(cs) ==> PostIdsF(cs)[i] == PostF(cs)[i].id
    ensures multiset(PostIdsF(cs)) == multiset(PreIdsF(cs))
    decreases cs, 0
  {
    if cs != [] {
      var init, last := cs[..|cs| - 1], cs[|cs| - 1];
      PostIdsOfPostF(init);
      PostIdsOfPost(last);
      var a, b := PostIdsF(init), PostIds(last);
      var pa, pb := PostF(init), Post(last);
      forall i | 0 <= i < SizeF(cs) ensures PostIdsF(cs)[i] == PostF(cs)[i].id {
        if i < |a| {
          assert PostIdsF(cs)[i] == a[i] && PostF(cs)[i] == pa[i];
        } else {
          assert PostIdsF(cs)[i] == b[i - |a|] && PostF(cs)[i] == pb[i - |a|];
        }
      }
    }
  }

  /** A strictly increasing sequence holds each value at most once. */
  lemma {:induction false} IncreasingOnce(s: seq<nat>, lo: nat, hi: nat, x: nat)
    requires Increasing(s, lo, hi)
    ensures multiset(s)[x] <= 1
    decreases |s|
  {
    if s != [] {
      assert s == [s[0]] + s[1..];
      assert Increasing(s[1..], lo, hi) by {
        forall i, j | 0 <= i < j < |s[1..]| ensures s[1..][i] < s[1..][j] {
          assert s[1..][i] == s[i + 1] && s[1..][j] == s[j + 1];
        }
      }
      IncreasingOnce(s[1..], lo, hi, x);
      if x == s[0] {
        assert x !in s[1..] by {
          forall i | 0 <= i < |s[1..]| ensures s[1..][i] != x {
            assert s[1..][i] == s[i + 1];
          }
        }
      }
    }
  }

  /** A value at two positions occurs at least twice. */
  lemma {:induction false} TwiceCounted(s: seq<nat>, i: nat, j: nat)
    requires i < j < |s| && s[i] == s[j]
    ensures multiset(s)[s[i]] >= 2
  {
    assert s == s[..i] + [s[i]] + s[i + 1..j] + [s[j]] + s[j + 1..];
  }

  /** A tree whose preorder identities increase within a range has distinct identities within that range. */
  lemma {:induction false} IncreasingDistinct(t: Tree<string>, lo: nat, hi: nat)
    requires Increasing(PreIds(t), lo, hi)
    ensures DistinctIds(t)
    ensures forall k :: 0 <= k < Size(t) ==> lo <= Post(t)[k].id < hi
  {
    PostIdsOfPost(t);
    forall k | 0 <= k < Size(t) ensures lo <= Post(t)[k].id < hi {
      assert PostIds(t)[k] in multiset(PreIds(t));
    }
    forall i, j | 0 <= i < j < Size(t) ensures Post(t)[i].id != Post(t)[j].id {
      var s := PostIds(t);
      if s[i] == s[j] {
        TwiceCounted(s, i, j);
        IncreasingOnce(PreIds(t), lo, hi, s[i]);
      }
    }
  }

  /**
   * Every node `fromString` builds has its own identity, unused before `start`: its trees can be
   * given to the distance computation, and trees parsed one after the other share no node.
   */
  lemma {:induction false} ParseDistinct(s: string, start: nat)
    ensures Parse(s, start).Some? ==> DistinctIds(Parse(s, start).value)
    ensures Parse(s, start).Some? ==> forall k :: 0 <= k < Size(Parse(s, start).value) ==>
      start <= Post(Parse(s, start).value)[k].id < ParseNext(s, start)
  {
    var r := Read(s, false, start);
    ReadIds(s, false, start);
    if r.Scanned? && r.result.Some? {
      NoKidsWithoutParent(s, "", [], start);
      assert PreIdsF(r.kids) + ResultIds(r.result) == PreIds(r.result.value) by {
        assert PreIdsF([]) == [];
      }
      IncreasingDistinct(r.result.value, start, r.next);
    }
  }

  /** With no parent the reader never adds a child. */
  lemma {:induction false} NoKidsWithoutParent(tree: string, node: string, kids: seq<Tree<string>>, next: nat)
    ensures var r := ReadFrom(tree, node, false, kids, next);
      r.Scanned? ==> r.kids == kids
    decreases |tree|
  {
    if tree != [] {
      var c := tree[0];
      if c != '(' {
        NoKidsWithoutParent(tree[1..], if c == ',' || c == ')' then "" else [c], kids, next);
      }
    }
  }

  // ---- the round trip ----

  /**
   * Reading a simple tree's string followed by a separator, under a parent: the reader adds
   * one child with the tree's shape and then either goes on after a comma or stops after a
   * closing parenthesis.
   */
  lemma {:induction false} ReadTree(c: Tree<string>, sep: char, rest: string, kids: seq<Tree<string>>, next: nat)
    returns (made: Tree<string>, after: nat)
    requires Simple(c) && (sep == ',' || sep == ')')
    ensures Shape(made) == Shape(c)
    ensures ReadFrom(TreeString(c) + [sep] + rest, "", true, kids, next)
      == if sep == ',' then ReadFrom(rest, "", true, kids + [made], after) else Scanned(kids + [made], None, rest, after)
    decreases c, 1
  {
    var s := TreeString(c) + [sep] + rest;
    var l := c.lbl;
    assert l == [l[0]] && !Delimiter(l[0]);
    if c.children == [] {
      assert s == l + [sep] + rest;
      assert s[0] == l[0] && s[1..] == [sep] + rest;
      assert ReadFrom(s, "", true, kids, next) == ReadFrom([sep] + rest, l, true, kids, next);
      made, after := Node(next, l, []), next + 1;
      assert ([sep] + rest)[0] == sep && ([sep] + rest)[1..] == rest;
    } else {
      var inner := Joined(c.children) + ")" + ([sep] + rest);
      assert s == l + "(" + inner by {
        assert TreeString(c) == l + "(" + Joined(c.children) + ")";
      }
      assert s[0] == l[0] && s[1..] == "(" + inner;
      assert ReadFrom(s, "", true, kids, next) == ReadFrom("(" + inner, l, true, kids, next);
      assert ("(" + inner)[0] == '(' && ("(" + inner)[1..] == inner;
      forall i | 0 <= i < |c.children| ensures Simple(c.children[i]) {
      }
      var grand, n2 := ReadForest(c.children, [sep] + rest, [], next + 1);
      assert Read(inner, true, next + 1) == Scanned(grand, None, [sep] + rest, n2);
      made, after := Node(next, l, grand), n2;
      assert ReadFrom("(" + inner, l, true, kids, next) == ReadFrom([sep] + rest, "", true, kids + [made], after);
      assert ([sep] + rest)[0] == sep && ([sep] + rest)[1..] == rest;
    }
  }

  /**
   * Reading the joined strings of a non-empty simple forest and a closing parenthesis, under a
   * parent: the reader adds one child per tree, in order and with the same shapes, and stops.
   */
  lemma {:induction false} ReadForest(cs: seq<Tree<string>>, rest: string, kids: seq<Tree<string>>, next: nat)
    returns (made: seq<Tree<string>>, after: nat)
    requires cs != [] && forall i :: 0 <= i < |cs| ==> Simple(cs[i])
    ensures ShapeF(made) == ShapeF(cs)
    ensures ReadFrom(Joined(cs) + ")" + rest, "", true, kids, next) == Scanned(kids + made, None, rest, after)
    decreases cs, 0
  {
    if |cs| == 1 {
      var m, a := ReadTree(cs[0], ')', rest, kids, next);
      assert Joined(cs) + ")" + rest == TreeString(cs[0]) + [')'] + rest;
      made, after := [m], a;
      assert ShapeF(made) == [Shape(m)] + ShapeF([]);
      assert ShapeF(cs) == [Shape(cs[0])] + ShapeF(cs[1..]);
    } else {
      var tail := Joined(cs[1..]) + ")" + rest;
      assert Joined(cs) + ")" + rest == TreeString(cs[0]) + [','] + tail;
      var m, a := ReadTree(cs[0], ',', tail, kids, next);
      var ms, a2 := ReadForest(cs[1..], rest, kids + [m], a);
      made, after := [m] + ms, a2;
      assert kids + made == kids + [m] + ms;
      assert made[0] == m && made[1..] == ms;
    }
  }

  /** `fromString(treeString(t))` rebuilds a simple tree: the same labels in the same shape, under fresh identities. */
  lemma {:induction false} RoundTrip(t: Tree<string>, start: nat)
    requires Simple(t)
    ensures Parse(TreeString(t), start).Some? && Shape(Parse(TreeString(t), start).value) == Shape(t)
  {
    var s := TreeString(t);
    var l := t.lbl;
    assert l == [l[0]] && !Delimiter(l[0]);
    if t.children == [] {
      assert s == [l[0]] && s[1..] == [];
      assert Read(s, false, start) == ReadFrom([], l, false, [], start);
    } else {
      var inner := Joined(t.children) + ")" + [];
      assert s == l + "(" + inner;
      assert s[0] == l[0] && s[1..] == "(" + inner;
      assert ("(" + inner)[0] == '(' && ("(" + inner)[1..] == inner;
      forall i | 0 <= i < |t.children| ensures Simple(t.children[i]) {
      }
      var grand, n := ReadForest(t.children, [], [], start + 1);
      assert Read(inner, true, start + 1) == Scanned(grand, None, [], n);
      assert Read(s, false, start) == ReadFrom("(" + inner, l, false, [], start);
      assert Read(s, false, start) == Scanned([], Some(Node(start, l, grand)), [], n);
    }
  }

  /** `fromString(s).treeString == s` for the string of every simple tree. */
  lemma {:induction false} RoundTripString(t: Tree<string>, start: nat)
    requires Simple(t)
    ensures Parse(TreeString(t), start).Some? && TreeString(Parse(TreeString(t), start).value) == TreeString(t)
  {
    RoundTrip(t, start);
    var p := Parse(TreeString(t), start).value;
    ShapeString(p);
    ShapeString(t);
  }

  // ---- the distance tests ----

  /** Trees with the same shape are copies of each other: only their identities differ. */
  lemma {:induction false} ShapeCopy(t1: Tree<string>, t2: Tree<string>)
    requires Shape(t1) == Shape(t2)
    ensures Copy(t1, t2)
    decreases t1
  {
    assert ShapeF(t1.children) == ShapeF(t2.children);
    forall i | 0 <= i < |t1.children| ensures Copy(t1.children[i], t2.children[i]) {
      ShapeAt(t1.children, i);
      ShapeAt(t2.children, i);
      ShapeCopy(t1.children[i], t2.children[i]);
    }
  }

  lemma {:induction false} ShapeAt(cs: seq<Tree<string>>, i: nat)
    requires i < |cs|
    ensures ShapeF(cs)[i] == Shape(cs[i])
    decreases i
  {
    if i > 0 {
      ShapeAt(cs[1..], i - 1);
    }
  }

  /**
   * Reading one serialisation twice, from any two starting identities, gives two copies, and
   * under the unit cost they are at distance zero: `run(tree, tree, 0)` of the distance tests.
   */
  lemma {:induction false} SameStringDistanceZero(t: Tree<string>, a: nat, b: nat)
    requires Simple(t)
    ensures Parse(TreeString(t), a).Some? && Parse(TreeString(t), b).Some?
    ensures Copy(Parse(TreeString(t), a).value, Parse(TreeString(t), b).value)
    ensures TotalCost(DistanceTrail(Parse(TreeString(t), a).value, Parse(TreeString(t), b).value, UnitCost)) == Fin(0)
  {
    RoundTrip(t, a);
    RoundTrip(t, b);
    var t1, t2 := Parse(TreeString(t), a).value, Parse(TreeString(t), b).value;
    ShapeCopy(t1, t2);
    UnitCostFreeSelfRename();
    CopyDistanceZero(t1, t2, UnitCost);
  }

  /** The number of postorder positions below `n` at which two trees carry different labels. */
  function Mismatches(t1: Tree<string>, t2: Tree<string>, n: nat): (r: nat)
    requires n <= Size(t1) && n <= Size(t2)
    ensures r <= n
  {
    if n == 0 then 0
    else Mismatches(t1, t2, n - 1) + if Post(t1)[n - 1].lbl == Post(t2)[n - 1].lbl then 0 else 1
  }

  /** Under the unit cost, renaming each node into the node at the same postorder index costs one per mismatch. */
  lemma {:induction false} UnitRenameSum(t1: Tree<string>, t2: Tree<string>, n: nat)
    requires n <= Size(t1) && n <= Size(t2)
    ensures RenameSum(ProblemOf(t1, t2, UnitCost), 0, n) == Mismatches(t1, t2, n)
  {
    if n > 0 {
      UnitRenameSum(t1, t2, n - 1);
    }
  }

  /**
   * Under the unit cost, two trees of the same shape are at most as far apart as the number of
   * postorder positions whose labels differ: `run("a(c)", "a(d)", 1)` and `run("a(b,c)",
   * "a(b,g)", 1)` of the distance tests are within this bound.
   */
  lemma {:induction false} UnitSimilarDistance(t1: Tree<string>, t2: Tree<string>)
    requires Similar(t1, t2)
    ensures Size(t1) == Size(t2) && TotalCost(DistanceTrail(t1, t2, UnitCost)).Fin?
    ensures TotalCost(DistanceTrail(t1, t2, UnitCost)).n <= Mismatches(t1, t2, Size(t1))
  {
    SimilarDistance(t1, t2, UnitCost);
    UnitRenameSum(t1, t2, Size(t1));
  }
}
