/**
 * The static role tests of the flag utilities, and the contract that
 * turning a flags field's decoded groups into flag names must meet.
 */
module FlagUtils {
  import opened Wrappers
  import opened JavaStrings
  import opened BitGroups
  import opened Fields

  /** isFlagsField: the trimmed name is "flags" ignoring case, and a bit field is present. */
  predicate IsFlagsField(f: Field) {
    GetName(f).Some? && EqualsIgnoreCase("flags", GetName(f).value) && f.bitField.Some?
  }

  /** isOpCodesField as its nested conditionals read; only a matching name with a present wrapper looks inside the list. */
  function IsOpCodesField(f: Field): (r: bool)
    requires OpCodesDefined(f)
    ensures !IsOpCodeName(GetName(f)) ==> !r
    ensures f.enumerations.None? ==> !r
    ensures IsOpCodeName(GetName(f)) && f.enumerations.Some? ==> (r <==> f.enumerations.value.value != [])
  {
    var name := GetName(f);
    if name.Some? && (EqualsIgnoreCase("op code", name.value) || EqualsIgnoreCase("op codes", name.value)) then
      if f.enumerations.Some? then
        var list := f.enumerations.value.value;
        if list != [] then true else false
      else false
    else false
  }

  /** The static tests and the field's own ones decide alike. */
  lemma RolePredicatesAgree(f: Field)
    ensures IsFlagsField(f) <==> Fields.IsFlagField(f)
    ensures OpCodesDefined(f) ==> (IsOpCodesField(f) <==> Fields.IsOpCodesField(f))
  {
  }

  /** Trimming " fLags " leaves "fLags". */
  lemma TrimExample()
    ensures Trim(" fLags ") == "fLags"
  {
    assert DropLeading(" fLags ") == DropLeading("fLags ") == "fLags ";
    assert DropTrailing("fLags ") == DropTrailing("fLags") == "fLags";
  }

  /** A name compares against "flags" ignoring case after trimming: " fLags " with a bit field qualifies. */
  lemma FlagsFieldExample()
    ensures IsFlagsField(Field(Some(" fLags "), None, None, 8, Some([]), None))
  {
    TrimExample();
    var f := Field(Some(" fLags "), None, None, 8, Some([]), None);
    assert GetName(f) == Some("fLags");
    LowerFlags();
  }

  /** "flags" and "fLags" agree letter by letter once lowered. */
  lemma LowerFlags()
    ensures EqualsIgnoreCase("flags", "fLags")
  {
    EqualsIgnoreCaseSpec("flags", "fLags");
    assert Lower('L') == 'l';
  }

  /** Without a bit field, or under a name that is not "flags", no field is the flags field. */
  lemma NotFlagsFieldExample()
    ensures !IsFlagsField(Field(Some("fLags"), None, None, 8, None, None))
    ensures !IsFlagsField(Field(Some("flag"), None, None, 8, Some([]), None))
  {
    TrimUnpadded("flag");
  }

  /** "Op Codes" with a one-entry list is an op-code field; with an empty list or under another name it is not. */
  lemma OpCodesFieldExample()
    ensures IsOpCodesField(Field(Some("Op Codes"), None, None, 8, None, Some(Some([Enumeration(1, Some("C1"), None)]))))
    ensures !IsOpCodesField(Field(Some("Op Codes"), None, None, 8, None, Some(Some([]))))
    ensures !IsOpCodesField(Field(Some("Op Code List"), None, None, 8, None, Some(Some([Enumeration(1, None, None)]))))
  {
    OpCodeNamesTrimmed();
    OpCodesNameMatches();
    OpCodeListNameFails();
  }

  /** Neither name of the example has trimmable ends. */
  lemma OpCodeNamesTrimmed()
    ensures Trim("Op Codes") == "Op Codes" && Trim("Op Code List") == "Op Code List"
  {
    assert DropLeading("Op Codes") == "Op Codes" && DropTrailing("Op Codes") == "Op Codes";
    assert DropLeading("Op Code List") == "Op Code List" && DropTrailing("Op Code List") == "Op Code List";
  }

  lemma OpCodesNameMatches()
    ensures IsOpCodeName(Some("Op Codes"))
  {
    LowerOpCodes();
  }

  lemma OpCodeListNameFails()
    ensures !IsOpCodeName(Some("Op Code List"))
  {
    assert |"Op Code List"| != |"op code"| && |"Op Code List"| != |"op codes"|;
  }

  /** "op codes" and "Op Codes" agree letter by letter once lowered. */
  lemma LowerOpCodes()
    ensures EqualsIgnoreCase("op codes", "Op Codes")
  {
    EqualsIgnoreCaseSpec("op codes", "Op Codes");
    assert Lower('O') == 'o' && Lower('C') == 'c';
  }

  /**
   * The flag-name set getReadFlags must yield for a single flags field read at
   * bit 0: for each group, the name its bit gives to the decoded value.
   */
  function ReadFlagsOfField(f: Field, raw: seq<bv8>, flagName: (nat, nat) -> string): (r: set<string>)
    requires f.bitField.Some?
    ensures forall i :: 0 <= i < |f.bitField.value| ==> flagName(i, ReadFlagValues(f, raw, 0)[i]) in r
    ensures forall t :: t in r ==> exists i :: 0 <= i < |f.bitField.value| && t == flagName(i, ReadFlagValues(f, raw, 0)[i])
  {
    var g := ReadFlagValues(f, raw, 0);
    set i | 0 <= i < |g| :: flagName(i, g[i])
  }

  /** The names of the first n groups. */
  function NamesBelow(g: seq<nat>, flagName: (nat, nat) -> string, n: nat): (r: set<string>)
    requires n <= |g|
  {
    if n == 0 then {} else NamesBelow(g, flagName, n - 1) + {flagName(n - 1, g[n - 1])}
  }

  /** Different groups never share a name, whatever their values. */
  ghost predicate NamesApart(flagName: (nat, nat) -> string) {
    forall i, j, v, w :: i != j ==> flagName(i, v) != flagName(j, w)
  }

  /** NamesBelow collects the name of each of the first n groups, and nothing else. */
  lemma {:induction false} NamesBelowSet(g: seq<nat>, flagName: (nat, nat) -> string, n: nat)
    requires n <= |g|
    ensures NamesBelow(g, flagName, n) == set i | 0 <= i < n :: flagName(i, g[i])
  {
    if n > 0 {
      NamesBelowSet(g, flagName, n - 1);
      assert (set i | 0 <= i < n :: flagName(i, g[i]))
             == (set i | 0 <= i < n - 1 :: flagName(i, g[i])) + {flagName(n - 1, g[n - 1])};
    }
  }

  /** The first n groups give at most n names, and exactly n when the names of different groups are apart. */
  lemma {:induction false} NamesBelowSize(g: seq<nat>, flagName: (nat, nat) -> string, n: nat)
    requires n <= |g|
    ensures |NamesBelow(g, flagName, n)| <= n
    ensures NamesApart(flagName) ==> |NamesBelow(g, flagName, n)| == n
  {
    if n > 0 {
      NamesBelowSize(g, flagName, n - 1);
      if NamesApart(flagName) {
        NamesBelowSet(g, flagName, n - 1);
        NameOfLaterGroup(g, flagName, n - 1);
      }
    }
  }

  /** With names apart, group n's name is not among the names of the groups before it. */
  lemma NameOfLaterGroup(g: seq<nat>, flagName: (nat, nat) -> string, n: nat)
    requires n < |g| && NamesApart(flagName)
    ensures flagName(n, g[n]) !in set i | 0 <= i < n :: flagName(i, g[i])
  {
  }

  /** A field gives at most one flag name per bit group, and exactly one per group when the groups' names never clash. */
  lemma ReadFlagsOfFieldSize(f: Field, raw: seq<bv8>, flagName: (nat, nat) -> string)
    requires f.bitField.Some?
    ensures |ReadFlagsOfField(f, raw, flagName)| <= |f.bitField.value|
    ensures NamesApart(flagName) ==> |ReadFlagsOfField(f, raw, flagName)| == |f.bitField.value|
  {
    var g := ReadFlagValues(f, raw, 0);
    NamesBelowSet(g, flagName, |g|);
    NamesBelowSize(g, flagName, |g|);
  }

  /** The seven groups of the fifteen-bit flags field, with the sizes 1, 2, 1, 3, 2, 2, 4. */
  const ExampleFlagBits := [Bit(0, 1, []), Bit(1, 2, []), Bit(2, 1, []), Bit(3, 3, []), Bit(4, 2, []), Bit(5, 2, []), Bit(6, 4, [])]

  const ExampleFlagsField := Field(Some("fLags"), None, None, 15, Some(ExampleFlagBits), None)

  /** Group i names its value v by the letter of the group followed by v in decimal. */
  function ExampleFlagName(i: nat, v: nat): string {
    (if i < 7 then ["ABCDEFG"[i]] else "") + Decimal(v)
  }

  /** parseReadFlags on the two bytes 0b10100101, 0b01010001 yields 1, 2, 0, 2, 3, 0, 10. */
  lemma ReadFlagValuesExample()
    ensures ReadFlagValues(ExampleFlagsField, [0xA5, 0x51], 0) == [1, 2, 0, 2, 3, 0, 10]
  {
    assert Sizes(ExampleFlagBits) == [1, 2, 1, 3, 2, 2, 4];
    DecodeExample();
  }

  /** The names the example gives to the groups 1, 2, 0, 2, 3, 0, 10. */
  lemma ExampleNames()
    ensures ExampleFlagName(0, 1) == "A1" && ExampleFlagName(1, 2) == "B2" && ExampleFlagName(2, 0) == "C0"
    ensures ExampleFlagName(3, 2) == "D2" && ExampleFlagName(4, 3) == "E3" && ExampleFlagName(5, 0) == "F0"
    ensures ExampleFlagName(6, 10) == "G10"
  {
    assert Decimal(10) == Decimal(1) + [DigitChar(0)] == "10";
  }

  lemma ExampleNameSet(r: set<string>)
    requires r == set i | 0 <= i < 7 :: ExampleFlagName(i, [1, 2, 0, 2, 3, 0, 10][i])
    ensures r == {"A1", "B2", "C0", "D2", "E3", "F0", "G10"}
  {
    var g := [1, 2, 0, 2, 3, 0, 10];
    ExampleNames();
    forall t | t in r ensures t in {"A1", "B2", "C0", "D2", "E3", "F0", "G10"} {
      var i :| 0 <= i < 7 && t == ExampleFlagName(i, g[i]);
      assert i == 0 || i == 1 || i == 2 || i == 3 || i == 4 || i == 5 || i == 6;
    }
    assert ExampleFlagName(0, g[0]) in r && ExampleFlagName(1, g[1]) in r && ExampleFlagName(2, g[2]) in r;
    assert ExampleFlagName(3, g[3]) in r && ExampleFlagName(4, g[4]) in r && ExampleFlagName(5, g[5]) in r;
    assert ExampleFlagName(6, g[6]) in r;
  }

  /** The flag names for those bytes are exactly the seven A1, B2, C0, D2, E3, F0, G10. */
  lemma ReadFlagsExample()
    ensures ReadFlagsOfField(ExampleFlagsField, [0xA5, 0x51], ExampleFlagName)
         == {"A1", "B2", "C0", "D2", "E3", "F0", "G10"}
  {
    ReadFlagValuesExample();
    ExampleNameSet(ReadFlagsOfField(ExampleFlagsField, [0xA5, 0x51], ExampleFlagName));
  }

  lemma FourNamesDistinct()
    ensures |{"A1", "B2", "C0", "D2"}| == 4
  {
    var s1: set<string> := {"A1"};
    assert "B2" !in s1 by { assert "B2"[0] != "A1"[0]; }
    var s2 := s1 + {"B2"};
    assert "C0" !in s2 by { assert "C0"[0] != "A1"[0] && "C0"[0] != "B2"[0]; }
    var s3 := s2 + {"C0"};
    assert "D2" !in s3 by { assert "D2"[0] != "A1"[0] && "D2"[0] != "B2"[0] && "D2"[0] != "C0"[0]; }
    assert s3 + {"D2"} == {"A1", "B2", "C0", "D2"};
  }

  lemma FiveNamesDistinct()
    ensures |{"A1", "B2", "C0", "D2", "E3"}| == 5
  {
    var s4: set<string> := {"A1", "B2", "C0", "D2"};
    FourNamesDistinct();
    assert "E3" !in s4 by { assert forall t | t in s4 :: t[0] != 'E'; }
    assert s4 + {"E3"} == {"A1", "B2", "C0", "D2", "E3"};
  }

  lemma SixNamesDistinct()
    ensures |{"A1", "B2", "C0", "D2", "E3", "F0"}| == 6
  {
    var s5: set<string> := {"A1", "B2", "C0", "D2", "E3"};
    FiveNamesDistinct();
    assert "F0" !in s5 by { assert forall t | t in s5 :: t[0] != 'F'; }
    assert s5 + {"F0"} == {"A1", "B2", "C0", "D2", "E3", "F0"};
  }

  lemma SevenNamesDistinct()
    ensures |{"A1", "B2", "C0", "D2", "E3", "F0", "G10"}| == 7
  {
    var s6: set<string> := {"A1", "B2", "C0", "D2", "E3", "F0"};
    SixNamesDistinct();
    assert "G10" !in s6 by { assert forall t | t in s6 :: t[0] != 'G'; }
    assert s6 + {"G10"} == {"A1", "B2", "C0", "D2", "E3", "F0", "G10"};
  }

  /** The seven names are distinct, so the set has seven elements. */
  lemma ReadFlagsExampleSize()
    ensures |ReadFlagsOfField(ExampleFlagsField, [0xA5, 0x51], ExampleFlagName)| == 7
  {
    ReadFlagsExample();
    SevenNamesDistinct();
  }
}
