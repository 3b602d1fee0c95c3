/**
 * The three elementary tree edits and their ordering
 * (Sources/TreeDistance/TreeOperation.swift).
 */
module Operations {
  import opened Wrappers

  /** Declaration order fixes the raw values: delete = 0, rename = 1, insert = 2. */
  datatype TreeOperation = Delete | Rename | Insert

  /** The integer raw value of a case. */
  function RawValue(op: TreeOperation): nat
  {
    match op
    case Delete => 0
    case Rename => 1
    case Insert => 2
  }

  /** The raw-value initialiser Swift synthesises for an `Int` enum. */
  function FromRawValue(raw: int): (r: Option<TreeOperation>)
    ensures r.Some? <==> 0 <= raw < 3
  {
    if raw == 0 then Some(Delete)
    else if raw == 1 then Some(Rename)
    else if raw == 2 then Some(Insert)
    else None
  }

  /** Raw values round-trip, so distinct cases have distinct raw values. */
  lemma {:induction false} RawValueRoundTrip(op: TreeOperation, raw: int)
    ensures FromRawValue(RawValue(op)) == Some(op)
    ensures FromRawValue(raw) == Some(op) <==> raw == RawValue(op)
  {
  }

  /** `<` compares raw values. */
  predicate Less(a: TreeOperation, b: TreeOperation)
  {
    RawValue(a) < RawValue(b)
  }

  /** `<` puts every delete before every rename before every insert. */
  lemma {:induction false} LessOrdersCases()
    ensures Less(Delete, Rename) && Less(Rename, Insert) && Less(Delete, Insert)
    ensures forall op :: !Less(op, Delete) && !Less(Insert, op)
  {
  }

  /** `<` is a strict total order. */
  lemma {:induction false} LessIsStrictTotalOrder(a: TreeOperation, b: TreeOperation, c: TreeOperation)
    ensures !Less(a, a)
    ensures Less(a, b) && Less(b, c) ==> Less(a, c)
    ensures a != b ==> Less(a, b) || Less(b, a)
    ensures !(Less(a, b) && Less(b, a))
  {
  }

  /** The printed name of a case. */
  function Description(op: TreeOperation): string
  {
    match op
    case Delete => "delete"
    case Rename => "rename"
    case Insert => "insert"
  }

  /** Distinct cases print differently. */
  lemma {:induction false} DescriptionInjective(a: TreeOperation, b: TreeOperation)
    ensures Description(a) == Description(b) <==> a == b
  {
  }
}
