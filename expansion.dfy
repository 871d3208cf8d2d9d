/**
 * Reference expansion of field lists: a field that refers to another
 * characteristic's type stands for that characteristic's own fields,
 * themselves expanded.
 */
module Expansion {
  import opened Wrappers
  import opened JavaStrings
  import opened Fields

  /** The loaded characteristics by trimmed type: each one's field list, or none when it has no value. */
  type Catalog = map<string, Option<seq<Field>>>

  /** The lookup key of a referencing field: its reference, trimmed. */
  function RefKey(f: Field): string
    requires f.reference.Some?
  {
    Trim(f.reference.value)
  }

  /** Every reference in fields resolves in the catalog to a type ranked below bound. */
  ghost predicate RefsBelow(cat: Catalog, fields: seq<Field>, rank: map<string, nat>, bound: nat) {
    fields == [] || (RefBelow(cat, fields[0], rank, bound) && RefsBelow(cat, fields[1..], rank, bound))
  }

  /** The recursive range condition holds exactly when it holds at every position. */
  lemma {:induction false} RefsBelowAt(cat: Catalog, fields: seq<Field>, rank: map<string, nat>, bound: nat)
    ensures RefsBelow(cat, fields, rank, bound) <==> forall i :: 0 <= i < |fields| ==> RefBelow(cat, fields[i], rank, bound)
  {
    if fields != [] {
      RefsBelowAt(cat, fields[1..], rank, bound);
      assert forall i :: 1 <= i < |fields| ==> fields[i] == fields[1..][i - 1];
    }
  }

  ghost predicate RefBelow(cat: Catalog, f: Field, rank: map<string, nat>, bound: nat) {
    f.reference.Some? ==> RefKey(f) in cat && RefKey(f) in rank && rank[RefKey(f)] < bound
  }

  /** The entry of a loaded type. */
  ghost function Lookup(cat: Catalog, k: string): Option<seq<Field>>
    requires k in cat
  {
    cat[k]
  }

  /** The type k, when it has a value, is ranked and refers only to types ranked below it. */
  ghost predicate RankedBelow(cat: Catalog, rank: map<string, nat>, k: string)
    requires k in cat
  {
    Lookup(cat, k).Some? ==> k in rank && RefsBelow(cat, Lookup(cat, k).value, rank, rank[k])
  }

  /** rank orders the catalog so that every type refers only to types of lower rank: there are no reference cycles. */
  ghost predicate Acyclic(cat: Catalog, rank: map<string, nat>) {
    forall k {:trigger RankedBelow(cat, rank, k)} :: k in cat ==> RankedBelow(cat, rank, k)
  }

  /** cat holds some of the types of full, each with the same entry: the part of the loaded types an expansion works over. */
  ghost predicate SubCatalog(cat: Catalog, full: Catalog) {
    forall k :: k in cat ==> k in full && full[k] == cat[k]
  }

  /** The expansion of a list: each field in order, a referencing one replaced by its referenced type's expansion. */
  ghost function Expand(cat: Catalog, rank: map<string, nat>, fields: seq<Field>, bound: nat): seq<Field>
    requires Acyclic(cat, rank) && RefsBelow(cat, fields, rank, bound)
    decreases bound, |fields|
  {
    if fields == [] then []
    else Piece(cat, rank, fields[0], bound) + Expand(cat, rank, fields[1..], bound)
  }

  ghost function Piece(cat: Catalog, rank: map<string, nat>, f: Field, bound: nat): seq<Field>
    requires Acyclic(cat, rank) && RefBelow(cat, f, rank, bound)
    decreases bound, 0
  {
    if f.reference.None? then [f]
    else
      var k := RefKey(f);
      assert RankedBelow(cat, rank, k);
      match Lookup(cat, k)
      case None => []
      case Some(l) => Expand(cat, rank, l, rank[k])
  }

  /** Expansion distributes over concatenation, so the order of the list is kept. */
  lemma {:induction false} ExpandAppend(cat: Catalog, rank: map<string, nat>, a: seq<Field>, b: seq<Field>, bound: nat)
    requires Acyclic(cat, rank) && RefsBelow(cat, a, rank, bound) && RefsBelow(cat, b, rank, bound)
    ensures RefsBelow(cat, a + b, rank, bound)
    ensures Expand(cat, rank, a + b, bound) == Expand(cat, rank, a, bound) + Expand(cat, rank, b, bound)
    decreases |a|
  {
    if a == [] {
      assert a + b == b;
    } else {
      ExpandAppend(cat, rank, a[1..], b, bound);
      ExpandAppendStep(cat, rank, a, b, bound);
    }
  }

  /** The inductive step of ExpandAppend: the first field of a comes first in a + b. */
  lemma ExpandAppendStep(cat: Catalog, rank: map<string, nat>, a: seq<Field>, b: seq<Field>, bound: nat)
    requires a != [] && Acyclic(cat, rank) && RefsBelow(cat, a, rank, bound)
    requires RefsBelow(cat, a[1..] + b, rank, bound) && RefsBelow(cat, b, rank, bound)
    requires Expand(cat, rank, a[1..] + b, bound) == Expand(cat, rank, a[1..], bound) + Expand(cat, rank, b, bound)
    ensures RefsBelow(cat, a + b, rank, bound)
    ensures Expand(cat, rank, a + b, bound) == Expand(cat, rank, a, bound) + Expand(cat, rank, b, bound)
  {
    var ab := a + b;
    assert ab[0] == a[0] && ab[1..] == a[1..] + b;
    ExpandCons(cat, rank, ab, bound);
    ExpandCons(cat, rank, a, bound);
  }

  /** A non-empty list expands to the piece of its first field followed by the expansion of the rest. */
  lemma ExpandCons(cat: Catalog, rank: map<string, nat>, fields: seq<Field>, bound: nat)
    requires fields != []
    requires Acyclic(cat, rank) && RefBelow(cat, fields[0], rank, bound) && RefsBelow(cat, fields[1..], rank, bound)
    ensures RefsBelow(cat, fields, rank, bound)
    ensures Expand(cat, rank, fields, bound) == Piece(cat, rank, fields[0], bound) + Expand(cat, rank, fields[1..], bound)
  {
  }

  /** Expanding a list from position i is the piece of field i followed by the expansion of the rest. */
  lemma ExpandStep(cat: Catalog, rank: map<string, nat>, fields: seq<Field>, i: nat, bound: nat)
    requires i < |fields|
    requires Acyclic(cat, rank) && RefsBelow(cat, fields[i..], rank, bound)
    ensures RefBelow(cat, fields[i], rank, bound) && RefsBelow(cat, fields[i + 1..], rank, bound)
    ensures Expand(cat, rank, fields[i..], bound) == Piece(cat, rank, fields[i], bound) + Expand(cat, rank, fields[i + 1..], bound)
  {
    assert fields[i..][0] == fields[i] && fields[i..][1..] == fields[i + 1..];
  }

  /** A list expanded up to position i, extended by the piece of field i, is expanded up to position i + 1. */
  lemma ExpandPrefixStep(cat: Catalog, rank: map<string, nat>, fields: seq<Field>, i: nat, bound: nat, done: seq<Field>)
    requires i < |fields|
    requires Acyclic(cat, rank) && RefsBelow(cat, fields, rank, bound) && RefsBelow(cat, fields[i..], rank, bound)
    requires Expand(cat, rank, fields, bound) == done + Expand(cat, rank, fields[i..], bound)
    ensures RefBelow(cat, fields[i], rank, bound) && RefsBelow(cat, fields[i + 1..], rank, bound)
    ensures Expand(cat, rank, fields, bound) == (done + Piece(cat, rank, fields[i], bound)) + Expand(cat, rank, fields[i + 1..], bound)
  {
    ExpandStep(cat, rank, fields, i, bound);
    var piece, rest := Piece(cat, rank, fields[i], bound), Expand(cat, rank, fields[i + 1..], bound);
    assert done + (piece + rest) == (done + piece) + rest;
  }

  /** The piece of a referencing field is the expansion of the referenced type's fields, or nothing when that type has no value. */
  lemma PieceOfReference(cat: Catalog, rank: map<string, nat>, f: Field, bound: nat)
    requires f.reference.Some?
    requires Acyclic(cat, rank) && RefBelow(cat, f, rank, bound)
    ensures Lookup(cat, RefKey(f)).None? ==> Piece(cat, rank, f, bound) == []
    ensures Lookup(cat, RefKey(f)).Some? ==>
              RefsBelow(cat, Lookup(cat, RefKey(f)).value, rank, rank[RefKey(f)])
              && Piece(cat, rank, f, bound) == Expand(cat, rank, Lookup(cat, RefKey(f)).value, rank[RefKey(f)])
  {
    assert RankedBelow(cat, rank, RefKey(f));
  }

  /** Expanding a single field gives its piece. */
  lemma ExpandSingle(cat: Catalog, rank: map<string, nat>, f: Field, bound: nat)
    requires Acyclic(cat, rank) && RefBelow(cat, f, rank, bound)
    ensures RefsBelow(cat, [f], rank, bound)
    ensures Expand(cat, rank, [f], bound) == Piece(cat, rank, f, bound)
  {
    assert [f][1..] == [];
  }

  /** No referencing field survives expansion. */
  lemma {:induction false} ExpandHasNoReferences(cat: Catalog, rank: map<string, nat>, fields: seq<Field>, bound: nat)
    requires Acyclic(cat, rank) && RefsBelow(cat, fields, rank, bound)
    ensures forall g :: g in Expand(cat, rank, fields, bound) ==> g.reference.None?
    decreases bound, |fields|
  {
    if fields != [] {
      PieceHasNoReferences(cat, rank, fields[0], bound);
      ExpandHasNoReferences(cat, rank, fields[1..], bound);
    }
  }

  lemma {:induction false} PieceHasNoReferences(cat: Catalog, rank: map<string, nat>, f: Field, bound: nat)
    requires Acyclic(cat, rank) && RefBelow(cat, f, rank, bound)
    ensures forall g :: g in Piece(cat, rank, f, bound) ==> g.reference.None?
    decreases bound, 0
  {
    if f.reference.Some? {
      var k := RefKey(f);
      assert RankedBelow(cat, rank, k);
      if Lookup(cat, k).Some? {
        ExpandHasNoReferences(cat, rank, Lookup(cat, k).value, rank[k]);
      }
    }
  }

  /** A list without references expands to itself. */
  lemma {:induction false} ExpandKeepsPlainFields(cat: Catalog, rank: map<string, nat>, fields: seq<Field>, bound: nat)
    requires Acyclic(cat, rank)
    requires forall i :: 0 <= i < |fields| ==> fields[i].reference.None?
    ensures RefsBelow(cat, fields, rank, bound)
    ensures Expand(cat, rank, fields, bound) == fields
    decreases |fields|
  {
    if fields != [] {
      assert forall i :: 0 <= i < |fields[1..]| ==> fields[1..][i] == fields[i + 1];
      ExpandKeepsPlainFields(cat, rank, fields[1..], bound);
      assert fields == [fields[0]] + fields[1..];
    }
  }

  /** Every plain field of the list appears in its expansion, and expanding twice changes nothing. */
  lemma ExpandIdempotent(cat: Catalog, rank: map<string, nat>, fields: seq<Field>, bound: nat)
    requires Acyclic(cat, rank) && RefsBelow(cat, fields, rank, bound)
    ensures RefsBelow(cat, Expand(cat, rank, fields, bound), rank, bound)
    ensures Expand(cat, rank, Expand(cat, rank, fields, bound), bound) == Expand(cat, rank, fields, bound)
  {
    var e := Expand(cat, rank, fields, bound);
    ExpandHasNoReferences(cat, rank, fields, bound);
    assert forall i :: 0 <= i < |e| ==> e[i] in e;
    ExpandKeepsPlainFields(cat, rank, e, bound);
  }

  const ExamplePlain := Field(Some("Level"), None, None, 8, None, None)
  const ExampleLink := Field(Some("Link"), None, Some(" Empty "), 0, None, None)
  const ExampleFields := [ExampleLink, ExamplePlain]
  /** Type "Outer" refers to type "Empty", which has no value, and adds a plain field. */
  const ExampleCatalog: Catalog := map["Empty" := None, "Outer" := Some([ExampleLink, ExamplePlain])]
  const ExampleRank: map<string, nat> := map["Empty" := 0, "Outer" := 1]

  lemma ExampleLinkKey()
    ensures RefKey(ExampleLink) == "Empty"
  {
    assert DropLeading(" Empty ") == DropLeading("Empty ") == "Empty ";
    assert DropTrailing("Empty ") == DropTrailing("Empty") == "Empty";
  }

  lemma ExampleAcyclic()
    ensures Acyclic(ExampleCatalog, ExampleRank)
    ensures RefsBelow(ExampleCatalog, ExampleFields, ExampleRank, 1)
  {
    ExampleFieldsBelow();
    forall k | k in ExampleCatalog ensures RankedBelow(ExampleCatalog, ExampleRank, k) {
      if k == "Outer" {
        ExampleOuterRanked();
      }
    }
  }

  lemma ExampleFieldsBelow()
    ensures RefsBelow(ExampleCatalog, ExampleFields, ExampleRank, 1)
  {
    var cat, rank := ExampleCatalog, ExampleRank;
    ExampleLinkBelow();
    assert RefBelow(cat, ExamplePlain, rank, 1);
    assert ExampleFields[1..] == [ExamplePlain] && [ExamplePlain][1..] == [];
    assert RefsBelow(cat, [ExamplePlain], rank, 1);
  }

  lemma ExampleLinkBelow()
    ensures RefBelow(ExampleCatalog, ExampleLink, ExampleRank, 1)
  {
    ExampleLinkKey();
    assert "Empty" in ExampleCatalog && ExampleRank["Empty"] == 0;
  }

  lemma ExampleOuterRanked()
    ensures RankedBelow(ExampleCatalog, ExampleRank, "Outer")
  {
    ExampleFieldsBelow();
    assert Lookup(ExampleCatalog, "Outer") == Some(ExampleFields);
  }

  /** A loaded type whose reference resolves nowhere. */
  const ExampleDangling := Field(Some("Link"), None, Some("Missing"), 0, None, None)
  const ExampleBrokenCatalog: Catalog := ExampleCatalog["Broken" := Some([ExampleDangling])]

  lemma ExampleDanglingKey()
    ensures RefKey(ExampleDangling) == "Missing"
  {
    assert DropLeading("Missing") == "Missing" && DropTrailing("Missing") == "Missing";
  }

  /**
   * A broken type loaded beside the example types, whose reference resolves
   * nowhere, lies outside the part an expansion of "Outer" reaches, and that
   * part still admits a rank.
   */
  lemma ExpandBesideBrokenType()
    ensures SubCatalog(ExampleCatalog, ExampleBrokenCatalog)
    ensures RefKey(ExampleDangling) !in ExampleBrokenCatalog
    ensures Acyclic(ExampleCatalog, ExampleRank)
  {
    BrokenCatalogExtends();
    ExampleDanglingKey();
    BrokenReferenceUnresolved();
    ExampleAcyclic();
  }

  lemma BrokenCatalogExtends()
    ensures SubCatalog(ExampleCatalog, ExampleBrokenCatalog)
  {
    assert "Broken" !in ExampleCatalog;
  }

  lemma BrokenReferenceUnresolved()
    ensures "Missing" !in ExampleBrokenCatalog
  {
    assert "Missing" != "Empty" by { assert |"Missing"| != |"Empty"|; }
    assert "Missing" != "Outer" by { assert |"Missing"| != |"Outer"|; }
    assert "Missing" != "Broken" by { assert |"Missing"| != |"Broken"|; }
  }

  /** The reference to the value-less type expands to nothing, so only the plain field remains. */
  lemma ExpandExample()
    ensures Acyclic(ExampleCatalog, ExampleRank)
    ensures RefsBelow(ExampleCatalog, ExampleFields, ExampleRank, 1)
    ensures Expand(ExampleCatalog, ExampleRank, ExampleFields, 1) == [ExamplePlain]
  {
    ExampleAcyclic();
    ExampleLinkKey();
    var cat, rank := ExampleCatalog, ExampleRank;
    assert Piece(cat, rank, ExampleLink, 1) == [];
    assert ExampleFields[1..] == [ExamplePlain] && [ExamplePlain][1..] == [];
    assert Expand(cat, rank, [ExamplePlain], 1) == [ExamplePlain];
  }
}
