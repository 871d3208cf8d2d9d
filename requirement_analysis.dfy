/**
 * What the specification reader derives from a characteristic's field list:
 * the conditional requirement tags its ordinary fields impose, and whether the
 * control fields (the last flags field, the last op-code field) can produce them all.
 */
module RequirementAnalysis {
  import opened Wrappers
  import opened Fields
  import opened Searches
  import opened Values
  import opened JavaStrings

  const Mandatory: string := "Mandatory"
  const Optional: string := "Optional"

  /** A field passes the reader's filters and adds its tags; last says whether it ends the list. */
  predicate Contributes(f: Field, last: bool) {
    && f.bitField.None?
    && f.requirements.Some? && f.requirements.value != []
    && Mandatory !in f.requirements.value
    && !(|f.requirements.value| == 1 && Optional in f.requirements.value && last)
  }

  predicate Imposes(fields: seq<Field>, i: nat)
    requires i < |fields|
  {
    Contributes(fields[i], i == |fields| - 1)
  }

  /** The tags added by the fields before position n. */
  function RequirementsBefore(fields: seq<Field>, n: nat): (r: set<string>)
    requires n <= |fields|
    ensures forall t :: t in r <==> exists i :: 0 <= i < n && Imposes(fields, i) && t in fields[i].requirements.value
  {
    set i, t | 0 <= i < n && Imposes(fields, i) && t in fields[i].requirements.value :: t
  }

  /** Every tag some imposing field lists, and no other. */
  function Requirements(fields: seq<Field>): (r: set<string>)
    ensures forall t :: t in r <==> exists i :: 0 <= i < |fields| && Imposes(fields, i) && t in fields[i].requirements.value
  {
    RequirementsBefore(fields, |fields|)
  }

  lemma RequirementsBeforeStep(fields: seq<Field>, n: nat)
    requires n < |fields|
    ensures RequirementsBefore(fields, n + 1)
         == RequirementsBefore(fields, n) + (if Imposes(fields, n) then set t | t in fields[n].requirements.value else {})
  {
  }

  /** A field with a bit field, null or empty requirements, or "Mandatory" among them may have its requirements cleared without effect. */
  lemma {:induction false} SkippedFieldContributesNothing(fields: seq<Field>, i: nat)
    requires i < |fields|
    requires var f := fields[i];
      f.bitField.Some? || f.requirements.None? || f.requirements.value == [] || Mandatory in f.requirements.value
    ensures Requirements(fields[i := fields[i].(requirements := None)]) == Requirements(fields)
  {
    var g := fields[i := fields[i].(requirements := None)];
    forall t | t in Requirements(fields) ensures t in Requirements(g) {
      var j :| 0 <= j < |fields| && Imposes(fields, j) && t in fields[j].requirements.value;
      assert j != i && g[j] == fields[j];
      assert Imposes(g, j);
    }
    forall t | t in Requirements(g) ensures t in Requirements(fields) {
      var j :| 0 <= j < |g| && Imposes(g, j) && t in g[j].requirements.value;
      assert j != i && g[j] == fields[j];
      assert Imposes(fields, j);
    }
  }

  /** Any tag listed by a field without a bit field and without "Mandatory" is required, except for a lone "Optional" on the last field. */
  lemma ListedTagRequired(fields: seq<Field>, i: nat, t: string)
    requires i < |fields| && fields[i].bitField.None? && fields[i].requirements.Some?
    requires Mandatory !in fields[i].requirements.value && t in fields[i].requirements.value
    requires !(fields[i].requirements.value == [Optional] && i == |fields| - 1)
    ensures t in Requirements(fields)
  {
    assert Imposes(fields, i) by {
      if |fields[i].requirements.value| == 1 && Optional in fields[i].requirements.value {
        assert fields[i].requirements.value == [Optional];
      }
    }
  }

  /** A required tag always comes from a field without a bit field whose list lacks "Mandatory". */
  lemma RequiredTagSource(fields: seq<Field>, t: string)
    requires t in Requirements(fields)
    ensures exists i :: 0 <= i < |fields| && fields[i].bitField.None? && fields[i].requirements.Some?
                        && Mandatory !in fields[i].requirements.value && t in fields[i].requirements.value
  {
    var i :| 0 <= i < |fields| && Imposes(fields, i) && t in fields[i].requirements.value;
  }

  /** A lone "Optional" adds nothing on the last field. */
  lemma OptionalTailExempt(fields: seq<Field>)
    requires fields != [] && fields[|fields| - 1].requirements == Some([Optional])
    ensures Requirements(fields) == Requirements(fields[|fields| - 1 := fields[|fields| - 1].(requirements := None)])
  {
    var n := |fields| - 1;
    var g := fields[n := fields[n].(requirements := None)];
    assert !Imposes(fields, n);
    assert forall j :: 0 <= j < n ==> g[j] == fields[j];
    assert forall j :: 0 <= j < n ==> (Imposes(g, j) <==> Imposes(fields, j));
  }

  /** Appending a lone "Optional" field adds nothing, except that the field it displaces from the end now adds "Optional" if it was a lone "Optional" too. */
  lemma {:induction false} AppendOptionalTail(fields: seq<Field>, opt: Field)
    requires opt.requirements == Some([Optional])
    ensures Requirements(fields + [opt])
         == Requirements(fields)
            + (if fields != [] && fields[|fields| - 1].requirements == Some([Optional]) && fields[|fields| - 1].bitField.None?
               then {Optional} else {})
  {
    var h := fields + [opt];
    var n := |fields|;
    assert !Imposes(h, n);
    assert forall j :: 0 <= j < n ==> h[j] == fields[j];
    assert forall j :: 0 <= j < n - 1 ==> (Imposes(h, j) <==> Imposes(fields, j));
    if n > 0 && fields[n - 1].requirements == Some([Optional]) && fields[n - 1].bitField.None? {
      assert Imposes(h, n - 1) && !Imposes(fields, n - 1);
      assert Optional in h[n - 1].requirements.value;
    } else if n > 0 {
      assert Imposes(h, n - 1) <==> Imposes(fields, n - 1) by {
        var r := fields[n - 1].requirements;
        if r.Some? && |r.value| == 1 && Optional in r.value {
          assert r.value == [Optional];
        }
      }
    }
  }

  /** The last flags field, if any: the one the validation loop is left holding. */
  function LastFlags(fields: seq<Field>): (r: Option<Field>)
    ensures r.None? <==> forall i :: 0 <= i < |fields| ==> !IsFlagField(fields[i])
    ensures r.Some? ==> exists i :: 0 <= i < |fields| && fields[i] == r.value && IsFlagField(r.value)
                          && forall j :: i < j < |fields| ==> !IsFlagField(fields[j])
  {
    LastBefore(fields, IsFlagField, |fields|)
  }

  /** The op-code test, on a field it may be applied to. */
  predicate OpCodesRole(f: Field) {
    OpCodesDefined(f) && IsOpCodesField(f)
  }

  /** The last op-code field, if any. */
  function LastOpCodes(fields: seq<Field>): (r: Option<Field>)
    requires forall i :: 0 <= i < |fields| ==> OpCodesDefined(fields[i])
    ensures r.None? <==> forall i :: 0 <= i < |fields| ==> !IsOpCodesField(fields[i])
    ensures r.Some? ==> exists i :: 0 <= i < |fields| && fields[i] == r.value && IsOpCodesField(r.value)
                          && forall j :: i < j < |fields| ==> !IsOpCodesField(fields[j])
  {
    LastBefore(fields, OpCodesRole, |fields|)
  }

  /** The tags the read side can produce: every flag tag of the last flags field. */
  function ReadTags(fields: seq<Field>): set<string> {
    match LastFlags(fields)
    case None => {}
    case Some(f) => FlagTags(f)
  }

  /** The tags the write side can produce: every op-code tag of the last op-code field. */
  function WriteTags(fields: seq<Field>): set<Option<string>>
    requires forall i :: 0 <= i < |fields| ==> OpCodesDefined(fields[i])
  {
    match LastOpCodes(fields)
    case None => {}
    case Some(f) => OpCodeTags(f)
  }

  predicate ValidForRead(fields: seq<Field>) {
    Requirements(fields) <= ReadTags(fields)
  }

  predicate ValidForWrite(fields: seq<Field>)
    requires forall i :: 0 <= i < |fields| ==> OpCodesDefined(fields[i])
  {
    forall t :: t in Requirements(fields) ==> Some(t) in WriteTags(fields)
  }

  /** Without a flags field, a characteristic reads validly exactly when it imposes no tag. */
  lemma NoFlagsField(fields: seq<Field>)
    requires forall i :: 0 <= i < |fields| ==> !IsFlagField(fields[i])
    ensures ValidForRead(fields) <==> Requirements(fields) == {}
  {
  }

  /** Without an op-code field, a characteristic writes validly exactly when it imposes no tag. */
  lemma NoOpCodesField(fields: seq<Field>)
    requires forall i :: 0 <= i < |fields| ==> OpCodesDefined(fields[i]) && !IsOpCodesField(fields[i])
    ensures ValidForWrite(fields) <==> Requirements(fields) == {}
  {
    if !ValidForWrite(fields) {
      var t :| t in Requirements(fields) && Some(t) !in WriteTags(fields);
    }
  }

  /** A list that imposes no tag is valid both ways. */
  lemma NothingRequired(fields: seq<Field>)
    requires forall i :: 0 <= i < |fields| ==> OpCodesDefined(fields[i])
    requires forall i :: 0 <= i < |fields| ==> fields[i].bitField.Some? || fields[i].requirements.None?
    ensures Requirements(fields) == {}
    ensures ValidForRead(fields) && ValidForWrite(fields)
  {
    assert forall i :: 0 <= i < |fields| ==> !Imposes(fields, i);
  }

  /** Value's lookup and the validation loop find a flags field in the same lists, and the same one when there is only one. */
  lemma FirstAndLastFlags(fields: seq<Field>)
    ensures FirstFlags(fields).None? <==> LastFlags(fields).None?
    ensures (forall i, j :: 0 <= i < j < |fields| ==> !(IsFlagField(fields[i]) && IsFlagField(fields[j])))
            ==> FirstFlags(fields) == LastFlags(fields)
  {
    FirstAndLastAgreeOnExistence(fields, IsFlagField);
    if k :| 0 <= k < |fields| && IsFlagField(fields[k]) {
      if forall i, j :: 0 <= i < j < |fields| ==> !(IsFlagField(fields[i]) && IsFlagField(fields[j])) {
        assert forall i :: 0 <= i < |fields| && i != k ==> !IsFlagField(fields[i]);
        SingleMatch(fields, IsFlagField, k);
      }
    }
  }

  /** With two flags fields, Value's lookup returns the first and the validation loop keeps the second. */
  lemma FirstAndLastFlagsDiffer()
    ensures var a := Field(Some("flags"), None, None, 8, Some([]), None);
            var b := a.(bitField := Some([Bit(0, 1, [])]));
            FirstFlags([a, b]) == Some(a) && LastFlags([a, b]) == Some(b) && a != b
  {
    TrimUnpadded("flags");
    assert EqualsIgnoreCase("flags", "flags");
  }
}
