/**
 * The child-list rearrangements that replaying an edit script performs
 * (`transformTree` in Sources/TreeDistance/TreeDistance.swift), on ordered sets of node
 * ids: promoting a deleted node's children into its place, and moving the children an
 * inserted node adopts under it. Each is defined step by step, the way the replay loops
 * perform it, and then shown equal to its closed form on well-behaved inputs.
 */
module ChildLists {
  import opened Wrappers
  import opened TreeNodes

  /** Removing a member that occurs once, between `a` and `b`, leaves `a + b`. */
  lemma {:induction false} RemovedBetween<T>(a: seq<T>, c: T, b: seq<T>)
    requires c !in a
    ensures Removed(a + [c] + b, c) == a + b
  {
    var s := a + [c] + b;
    var q := IndexOf(s, c);
    assert s[|a|] == c;
    assert q <= |a|;
    assert q >= |a| by {
      assert s[..|a|] == a;
    }
    assert s[..q] == a && s[q + 1..] == b;
  }

  // ---- delete: promoting the children of a deleted node ----

  /**
   * The parent's children after the deleted node's children `kids` are inserted, last to
   * first, each at `pos`.
   */
  function Promote(s: seq<nat>, kids: seq<nat>, pos: nat): (r: seq<nat>)
    requires pos <= |s|
    ensures |r| >= |s|
  {
    if kids == [] then s
    else
      var r := Promote(s, kids[1..], pos);
      Inserted(r, kids[0], Some(pos))
  }

  /** Promoting keeps every member of the list. */
  lemma {:induction false} PromoteKeeps(s: seq<nat>, kids: seq<nat>, pos: nat)
    requires pos <= |s|
    ensures forall x :: x in s ==> x in Promote(s, kids, pos)
  {
    if kids != [] {
      PromoteKeeps(s, kids[1..], pos);
      InsertedMembers(Promote(s, kids[1..], pos), kids[0], Some(pos));
    }
  }

  /** Promoting adds only the promoted children, and keeps the list a set. */
  lemma {:induction false} PromoteFacts(s: seq<nat>, kids: seq<nat>, pos: nat)
    requires pos <= |s| && NoDup(s)
    ensures NoDup(Promote(s, kids, pos))
    ensures forall x :: x in Promote(s, kids, pos) ==> x in s || x in kids
  {
    if kids != [] {
      PromoteFacts(s, kids[1..], pos);
      var r := Promote(s, kids[1..], pos);
      InsertedFacts(r, kids[0], Some(pos));
      InsertedMembers(r, kids[0], Some(pos));
    }
  }

  /**
   * When the promoted children are new to the list, they land in order where `pos` was:
   * the list is spliced open at `pos`.
   */
  lemma {:induction false} PromoteSplices(s: seq<nat>, kids: seq<nat>, pos: nat)
    requires pos <= |s| && NoDup(s) && NoDup(kids) && forall k :: k in kids ==> k !in s
    ensures Promote(s, kids, pos) == s[..pos] + kids + s[pos..]
  {
    if kids != [] {
      var rest := kids[1..];
      assert NoDup(rest) by {
        forall i, j | 0 <= i < j < |rest| ensures rest[i] != rest[j] {
          assert rest[i] == kids[i + 1] && rest[j] == kids[j + 1];
        }
      }
      PromoteSplices(s, rest, pos);
      var t := s[..pos] + rest + s[pos..];
      assert kids[0] !in t by {
        assert kids[0] !in s;
        assert s == s[..pos] + s[pos..];
        forall i | 0 <= i < |rest| ensures rest[i] != kids[0] {
          assert rest[i] == kids[i + 1];
        }
      }
      assert t[..pos] == s[..pos] && t[pos..] == rest + s[pos..];
      assert kids == [kids[0]] + rest;
    }
  }

  /**
   * Promoting a deleted member's children into its place and then removing it splices the
   * children in where it was.
   */
  lemma {:induction false} PromoteRemoved(s: seq<nat>, kids: seq<nat>, deleted: nat)
    requires deleted in s && deleted !in kids && NoDup(s) && NoDup(kids) && forall k :: k in kids ==> k !in s
    ensures var pos := IndexOf(s, deleted);
      deleted in Promote(s, kids, pos) && Removed(Promote(s, kids, pos), deleted) == s[..pos] + kids + s[pos + 1..]
  {
    var pos := IndexOf(s, deleted);
    PromoteKeeps(s, kids, pos);
    PromoteAt(s, kids, pos);
    RemovedSplice(s, kids, deleted, pos);
  }

  /** Promoting at an existing member puts the children just before it. */
  lemma {:induction false} PromoteAt(s: seq<nat>, kids: seq<nat>, pos: nat)
    requires pos < |s| && NoDup(s) && NoDup(kids) && forall k :: k in kids ==> k !in s
    ensures Promote(s, kids, pos) == s[..pos] + kids + [s[pos]] + s[pos + 1..]
  {
    PromoteSplices(s, kids, pos);
    assert s[pos..] == [s[pos]] + s[pos + 1..];
  }

  /** Removing the member at `pos`, with `kids` spliced in before it, leaves the splice alone. */
  lemma {:induction false} RemovedSplice(s: seq<nat>, kids: seq<nat>, deleted: nat, pos: nat)
    requires pos < |s| && deleted !in s[..pos] && deleted !in kids
    ensures Removed(s[..pos] + kids + [deleted] + s[pos + 1..], deleted) == s[..pos] + kids + s[pos + 1..]
  {
    var a := s[..pos] + kids;
    assert deleted !in a;
    RemovedBetween(a, deleted, s[pos + 1..]);
  }

  // ---- insert: adopting the children named as descendants ----

  /** One copy of `c` for each occurrence of `c` in `ds`, as the inner scan finds them. */
  function Copies(c: nat, ds: seq<nat>): seq<nat>
  {
    if ds == [] then [] else Copies(c, ds[..|ds| - 1]) + (if ds[|ds| - 1] == c then [c] else [])
  }

  /** The children to detach from the parent: each child, once per time `ds` names it. */
  function Matching(kids: seq<nat>, ds: seq<nat>): seq<nat>
  {
    if kids == [] then [] else Matching(kids[..|kids| - 1], ds) + Copies(kids[|kids| - 1], ds)
  }

  /** The adopting node's children after each child named in `ds` is appended to them. */
  function AdoptInto(ins: seq<nat>, kids: seq<nat>, ds: seq<nat>): seq<nat>
  {
    if kids == [] then ins
    else
      var a := AdoptInto(ins, kids[..|kids| - 1], ds);
      var c := kids[|kids| - 1];
      if c in ds then Inserted(a, c, Some(|a|)) else a
  }

  /** Removes each of `xs` in turn; `None` when one of them is not there to remove. */
  function RemoveAll(s: seq<nat>, xs: seq<nat>): Option<seq<nat>>
  {
    if xs == [] then Some(s)
    else
      match RemoveAll(s, xs[..|xs| - 1])
      case None => None
      case Some(r) => if xs[|xs| - 1] in r then Some(Removed(r, xs[|xs| - 1])) else None
  }

  /** The members of `s` that `ds` names, in the order of `s`. */
  function Filter(s: seq<nat>, ds: seq<nat>): seq<nat>
  {
    if s == [] then [] else Filter(s[..|s| - 1], ds) + (if s[|s| - 1] in ds then [s[|s| - 1]] else [])
  }

  /** The members of `s` that `ds` does not name, in the order of `s`. */
  function Without(s: seq<nat>, ds: seq<nat>): seq<nat>
  {
    if s == [] then [] else Without(s[..|s| - 1], ds) + (if s[|s| - 1] in ds then [] else [s[|s| - 1]])
  }

  lemma {:induction false} FilterMembers(s: seq<nat>, ds: seq<nat>)
    ensures forall x :: x in Filter(s, ds) <==> x in s && x in ds
    ensures forall x :: x in Without(s, ds) <==> x in s && x !in ds
  {
    if s != [] {
      FilterMembers(s[..|s| - 1], ds);
      assert s == s[..|s| - 1] + [s[|s| - 1]];
    }
  }

  /** Without repetitions in `ds`, each child is named at most once. */
  lemma {:induction false} CopiesOnce(c: nat, ds: seq<nat>)
    requires NoDup(ds)
    ensures Copies(c, ds) == if c in ds then [c] else []
  {
    if ds != [] {
      var init := ds[..|ds| - 1];
      assert NoDup(init) by {
        forall i, j | 0 <= i < j < |init| ensures init[i] != init[j] {
          assert init[i] == ds[i] && init[j] == ds[j];
        }
      }
      CopiesOnce(c, init);
      assert ds == init + [ds[|ds| - 1]];
      if ds[|ds| - 1] == c {
        assert c !in init by {
          forall i | 0 <= i < |init| ensures init[i] != c {
            assert init[i] == ds[i];
          }
        }
      }
    }
  }

  /** Without repetitions in `ds`, the children detached are the named children, in order. */
  lemma {:induction false} MatchingIsFilter(kids: seq<nat>, ds: seq<nat>)
    requires NoDup(ds)
    ensures Matching(kids, ds) == Filter(kids, ds)
  {
    if kids != [] {
      MatchingIsFilter(kids[..|kids| - 1], ds);
      CopiesOnce(kids[|kids| - 1], ds);
    }
  }

  /** A prefix of a list without repetitions has none. */
  lemma {:induction false} PrefixNoDup(s: seq<nat>, n: nat)
    requires NoDup(s) && n <= |s|
    ensures NoDup(s[..n]) && forall i :: n <= i < |s| ==> s[i] !in s[..n]
  {
    var p := s[..n];
    forall i, j | 0 <= i < j < |p| ensures p[i] != p[j] {
      assert p[i] == s[i] && p[j] == s[j];
    }
    forall i | n <= i < |s| ensures s[i] !in p {
      forall k | 0 <= k < |p| ensures p[k] != s[i] {
        assert p[k] == s[k];
      }
    }
  }

  /**
   * A node with no children that adopts from a list of distinct children ends with the
   * named children, in the parent's order.
   */
  lemma {:induction false} AdoptIsFilter(kids: seq<nat>, ds: seq<nat>)
    requires NoDup(kids)
    ensures AdoptInto([], kids, ds) == Filter(kids, ds)
  {
    if kids != [] {
      var init, c := kids[..|kids| - 1], kids[|kids| - 1];
      PrefixNoDup(kids, |kids| - 1);
      AdoptIsFilter(init, ds);
      FilterMembers(init, ds);
    }
  }

  /**
   * Removing the named children of a list of distinct children, one by one in list
   * order, leaves exactly the children not named (and whatever follows them).
   */
  lemma {:induction false} RemoveFiltered(kids: seq<nat>, t: seq<nat>, ds: seq<nat>)
    requires NoDup(kids + t)
    ensures RemoveAll(kids + t, Filter(kids, ds)) == Some(Without(kids, ds) + t)
  {
    if kids == [] {
    } else {
      var init, c := kids[..|kids| - 1], kids[|kids| - 1];
      assert kids + t == init + ([c] + t);
      RemoveFiltered(init, [c] + t, ds);
      var w := Without(init, ds);
      assert NoDup(init + [c]) && c !in init by {
        assert init + [c] == (kids + t)[..|kids|];
        PrefixNoDup(kids + t, |kids|);
        PrefixNoDup(kids, |kids| - 1);
      }
      if c in ds {
        var f := Filter(init, ds);
        assert Filter(kids, ds) == f + [c];
        assert (f + [c])[..|f|] == f;
        FilterMembers(init, ds);
        assert c !in w;
        RemovedBetween(w, c, t);
        assert w + [c] + t == w + ([c] + t);
        assert RemoveAll(kids + t, f) == Some(w + ([c] + t));
        assert Without(kids, ds) == w;
        calc {
          RemoveAll(kids + t, f + [c]);
          Some(Removed(w + ([c] + t), c));
          Some(w + t);
        }
      } else {
        assert Filter(kids, ds) == Filter(init, ds);
        assert RemoveAll(init + ([c] + t), Filter(init, ds)) == Some(w + ([c] + t));
        assert Without(kids, ds) == w + [c];
        assert Without(kids, ds) + t == w + ([c] + t);
      }
    }
  }

  /** Adopting keeps the adopting node's children a set, drawn from its own and the parent's. */
  lemma {:induction false} AdoptFacts(ins: seq<nat>, kids: seq<nat>, ds: seq<nat>)
    requires NoDup(ins)
    ensures NoDup(AdoptInto(ins, kids, ds))
    ensures forall x :: x in AdoptInto(ins, kids, ds) ==> x in ins || x in kids
  {
    if kids != [] {
      var init, c := kids[..|kids| - 1], kids[|kids| - 1];
      AdoptFacts(ins, init, ds);
      var a := AdoptInto(ins, init, ds);
      InsertedFacts(a, c, Some(|a|));
      InsertedMembers(a, c, Some(|a|));
      assert forall x :: x in init ==> x in kids;
    }
  }

  /** Removing keeps a set a set, and adds nothing. */
  lemma {:induction false} RemoveAllFacts(s: seq<nat>, xs: seq<nat>)
    requires NoDup(s)
    ensures RemoveAll(s, xs).Some? ==> NoDup(RemoveAll(s, xs).value)
    ensures RemoveAll(s, xs).Some? ==> forall x :: x in RemoveAll(s, xs).value ==> x in s
  {
    if xs != [] {
      RemoveAllFacts(s, xs[..|xs| - 1]);
      var r := RemoveAll(s, xs[..|xs| - 1]);
      if r.Some? && xs[|xs| - 1] in r.value {
        RemovedFacts(r.value, xs[|xs| - 1]);
        RemovedMembers(r.value, xs[|xs| - 1]);
      }
    }
  }
}
