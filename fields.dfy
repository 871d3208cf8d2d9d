/**
 * A field of a GATT characteristic's value, with its enumeration table and
 * bit field, and the lookups Field offers over them.
 */
module Fields {
  import opened Wrappers
  import opened JavaStrings
  import opened BitGroups

  /** One entry of an enumeration table: a key, an optional requirement tag it activates, an optional display text. */
  datatype Enumeration = Enumeration(key: int, requirement: Option<string>, value: Option<string>)

  /** One group of a bit field: its declared index (which nothing reads), its width, and its value table. */
  datatype Bit = Bit(index: int, size: nat, enumerations: seq<Enumeration>)

  /**
   * A field: its name, its requirement tags, an optional reference to another
   * characteristic's type, the bit width of its format, an optional bit field,
   * and its enumerations (the wrapper object and the list inside it may each be missing).
   */
  datatype Field = Field(
    name: Option<string>,
    requirements: Option<seq<string>>,
    reference: Option<string>,
    formatSize: nat,
    bitField: Option<seq<Bit>>,
    enumerations: Option<Option<seq<Enumeration>>>)

  /** The field's name without surrounding whitespace; missing when the name is. */
  function GetName(f: Field): (r: Option<string>)
    ensures r.None? <==> f.name.None?
  {
    if f.name.Some? then Some(Trim(f.name.value)) else None
  }

  /** A present name comes back trimmed: its middle part between trimmable ends. */
  lemma GetNameTrims(f: Field)
    requires f.name.Some?
    ensures exists start :: TrimmedAt(f.name.value, GetName(f).value, start)
    ensures var r := GetName(f).value; r != [] ==> !IsSpace(r[0]) && !IsSpace(r[|r| - 1])
  {
    var s := f.name.value;
    TrimSpec(s);
    var start :| TrimmedAt(s, Trim(s), start);
    assert GetName(f).value == Trim(s);
  }

  /** The enumeration list as the stream lookups see it: empty when the wrapper or the list is missing. */
  function EnumList(f: Field): seq<Enumeration> {
    match f.enumerations
    case None => []
    case Some(None) => []
    case Some(Some(l)) => l
  }

  function HasEnumerations(f: Field): (r: bool)
    ensures r <==> EnumList(f) != []
  {
    f.enumerations.Some? && f.enumerations.value.Some? && |f.enumerations.value.value| > 0
  }

  /** Position i holds the first entry of l with the given key. */
  predicate FirstWithKey(l: seq<Enumeration>, key: int, i: int) {
    0 <= i < |l| && l[i].key == key && forall j :: 0 <= j < i ==> l[j].key != key
  }

  /** The first entry of l with the given key. */
  function FindByKey(l: seq<Enumeration>, key: int): (r: Option<Enumeration>)
    ensures r.Some? ==> r.value in l && r.value.key == key
    ensures r.None? <==> forall e :: e in l ==> e.key != key
    ensures forall i :: FirstWithKey(l, key, i) ==> r == Some(l[i])
  {
    if l == [] then None
    else if l[0].key == key then Some(l[0])
    else FindByKey(l[1..], key)
  }

  /** An entry whose key equals the given key, if there is one; nothing for a null key. */
  function GetEnumeration(f: Field, key: Option<int>): (r: Option<Enumeration>)
    ensures key.None? ==> r.None?
    ensures r.Some? ==> r.value in EnumList(f) && r.value.key == key.value
    ensures key.Some? ==> (r.None? <==> forall e :: e in EnumList(f) ==> e.key != key.value)
  {
    if key.None? then None else FindByKey(EnumList(f), key.value)
  }

  /** The requirement tag of the entry with the given key; null when there is none. */
  function GetRequires(f: Field, key: Option<int>): (r: Option<string>)
    ensures key.None? || EnumList(f) == [] ==> r.None?
    ensures r.Some? ==> exists e :: e in EnumList(f) && e.key == key.value && e.requirement == r
    ensures key.Some? && (forall e :: e in EnumList(f) && e.key == key.value ==> e.requirement.None?) ==> r.None?
  {
    match GetEnumeration(f, key)
    case None => None
    case Some(e) => e.requirement
  }

  /** For a key some entry has, getRequires gives an entry's tag, null or not: the tag of the first entry with that key. */
  lemma GetRequiresOfKey(f: Field, key: int)
    ensures (exists e :: e in EnumList(f) && e.key == key) ==>
              exists e :: e in EnumList(f) && e.key == key && e.requirement == GetRequires(f, Some(key))
    ensures forall i :: FirstWithKey(EnumList(f), key, i) ==> GetRequires(f, Some(key)) == EnumList(f)[i].requirement
  {
  }

  /** The entries of l whose display text is v, in their order in l. */
  function FilterByValue(l: seq<Enumeration>, v: string): (r: seq<Enumeration>)
    ensures |r| <= |l|
    ensures forall e :: e in r <==> e in l && e.value == Some(v)
  {
    if l == [] then []
    else (if l[0].value == Some(v) then [l[0]] else []) + FilterByValue(l[1..], v)
  }

  /** All entries whose display text equals the argument, in table order; none for a null argument. */
  function GetEnumerationsByValue(f: Field, value: Option<string>): (r: seq<Enumeration>)
    ensures value.None? ==> r == []
    ensures value.Some? ==> forall e :: e in r <==> e in EnumList(f) && e.value == value
  {
    if value.None? then [] else FilterByValue(EnumList(f), value.value)
  }

  /** Filtering keeps the order of the table: it distributes over concatenation. */
  lemma {:induction false} FilterByValueAppend(a: seq<Enumeration>, b: seq<Enumeration>, v: string)
    ensures FilterByValue(a + b, v) == FilterByValue(a, v) + FilterByValue(b, v)
  {
    if a != [] {
      assert (a + b)[0] == a[0] && (a + b)[1..] == a[1..] + b;
      FilterByValueAppend(a[1..], b, v);
    } else {
      assert a + b == b;
    }
  }

  /** The tags a flags field can ever activate: every non-null requires in any bit's table. */
  function FlagTags(f: Field): set<string> {
    match f.bitField
    case None => {}
    case Some(bits) =>
      set k, e | 0 <= k < |bits| && e in bits[k].enumerations && e.requirement.Some? :: e.requirement.value
  }

  /** The tags an op-code field declares: the requires of every entry, null included. */
  function OpCodeTags(f: Field): set<Option<string>> {
    set e | e in EnumList(f) :: e.requirement
  }

  /** getAllFlags: nested loops over the bits and their tables. */
  method AllFlags(f: Field) returns (result: set<string>)
    ensures result == FlagTags(f)
  {
    result := {};
    if f.bitField.Some? {
      var bits := f.bitField.value;
      for i := 0 to |bits|
        invariant result == set k, e | 0 <= k < i && e in bits[k].enumerations && e.requirement.Some? :: e.requirement.value
      {
        var table := bits[i].enumerations;
        ghost var before := result;
        for j := 0 to |table|
          invariant result == before + set e | e in table[..j] && e.requirement.Some? :: e.requirement.value
        {
          if table[j].requirement.Some? {
            result := result + {table[j].requirement.value};
          }
          assert table[..j + 1] == table[..j] + [table[j]];
        }
        assert table[..|table|] == table;
      }
    }
  }

  /** getAllOpCodes: empty without a table, otherwise every entry's requires, null included. */
  method AllOpCodes(f: Field) returns (result: set<Option<string>>)
    ensures result == OpCodeTags(f)
    ensures f.enumerations.None? || f.enumerations.value.None? ==> result == {}
  {
    if f.enumerations.None? || f.enumerations.value.None? {
      return {};
    }
    var table := f.enumerations.value.value;
    result := {};
    for i := 0 to |table|
      invariant result == set e | e in table[..i] :: e.requirement
    {
      result := result + {table[i].requirement};
      assert table[..i + 1] == table[..i] + [table[i]];
    }
    assert table[..|table|] == table;
  }

  /** The tag getRequires selects for a key present in the table is among the op-code tags. */
  lemma RequiresAmongOpCodeTags(f: Field, key: int)
    requires exists e :: e in EnumList(f) && e.key == key
    ensures GetRequires(f, Some(key)) in OpCodeTags(f)
  {
    var e := GetEnumeration(f, Some(key));
    assert e.value in EnumList(f);
  }

  function Sizes(bits: seq<Bit>): (s: seq<nat>)
    ensures |s| == |bits| && forall i :: 0 <= i < |bits| ==> s[i] == bits[i].size
  {
    seq(|bits|, i requires 0 <= i < |bits| => bits[i].size)
  }

  /** The groups parseReadFlags decodes: the field's format-wide window at bit index, split by the bits' sizes. */
  function ReadFlagValues(f: Field, raw: seq<bv8>, index: nat): (g: seq<nat>)
    requires f.bitField.Some?
    ensures |g| == |f.bitField.value|
  {
    Groups(Window(raw, index, f.formatSize), Sizes(f.bitField.value), 0)
  }

  /** parseReadFlags: fills one int per bit group while advancing a running offset. */
  method ParseReadFlags(f: Field, raw: seq<bv8>, index: nat) returns (flags: array<int>)
    requires f.bitField.Some?
    ensures fresh(flags)
    ensures flags[..] == ReadFlagValues(f, raw, index)
  {
    var window := Window(raw, index, f.formatSize);
    var bits := f.bitField.value;
    ghost var sizes := Sizes(bits);
    ghost var groups := Groups(window, sizes, 0);
    flags := new int[|bits|];
    var offset := 0;
    for i := 0 to |bits|
      invariant offset == Offset(sizes, i)
      invariant forall j :: 0 <= j < i ==> flags[j] == groups[j]
    {
      var size := bits[i].size;
      GroupAt(window, sizes, 0, i);
      flags[i] := Unsigned(Slice(window, offset, size));
      offset := offset + size;
    }
    assert flags[..] == groups;
  }

  predicate IsOpCodeName(name: Option<string>) {
    name.Some? && (EqualsIgnoreCase("op code", name.value) || EqualsIgnoreCase("op codes", name.value))
  }

  /** isFlagField: named "flags" in any case and carrying a bit field. */
  predicate IsFlagField(f: Field) {
    var name := GetName(f);
    name.Some? && EqualsIgnoreCase("flags", name.value) && f.bitField.Some?
  }

  /** The op-code test only dereferences the enumeration list for an op-code name and a present wrapper; it must be there then. */
  predicate OpCodesDefined(f: Field) {
    !(IsOpCodeName(GetName(f)) && f.enumerations == Some(None))
  }

  /** isOpCodesField: named "op code" or "op codes" in any case, with a non-empty enumeration list. */
  predicate IsOpCodesField(f: Field)
    requires OpCodesDefined(f)
  {
    IsOpCodeName(GetName(f)) && f.enumerations.Some? && |f.enumerations.value.value| > 0
  }

  /** The role names are already lower case. */
  lemma LowerLiterals()
    ensures forall i :: 0 <= i < |"flags"| ==> Lower("flags"[i]) == "flags"[i]
    ensures forall i :: 0 <= i < |"op codes"| ==> Lower("op codes"[i]) == "op codes"[i]
    ensures forall i :: 0 <= i < |"op code"| ==> Lower("op code"[i]) == "op code"[i]
  {
  }

  /** isFlagField holds exactly for a field with a bit field whose stored name, trimmed, lower-cases to "flags". */
  lemma FlagFieldByName(f: Field)
    ensures IsFlagField(f) <==> f.name.Some? && f.bitField.Some? && LowerCaseIs(Trim(f.name.value), "flags")
  {
    if f.name.Some? {
      var name := Trim(f.name.value);
      LowerLiterals();
      EqualsLowerLiteral("flags", name);
      assert IsFlagField(f) <==> EqualsIgnoreCase("flags", name) && f.bitField.Some?;
    }
  }

  /** isOpCodesField holds exactly for a field whose stored name, trimmed, lower-cases to "op code" or "op codes", with a non-empty enumeration list. */
  lemma OpCodesFieldByName(f: Field)
    requires OpCodesDefined(f)
    ensures IsOpCodesField(f) <==>
              f.name.Some? && (LowerCaseIs(Trim(f.name.value), "op code") || LowerCaseIs(Trim(f.name.value), "op codes"))
              && f.enumerations.Some? && EnumList(f) != []
  {
    if f.name.Some? {
      var name := Trim(f.name.value);
      LowerLiterals();
      EqualsLowerLiteral("op code", name);
      EqualsLowerLiteral("op codes", name);
      assert IsOpCodeName(GetName(f)) <==> EqualsIgnoreCase("op code", name) || EqualsIgnoreCase("op codes", name);
    }
  }

  /** Group i of parseReadFlags: the unsigned value of the window's bits that start at the sum of the earlier bits' sizes, as many as bit i's size, so below 2 to that size. */
  lemma ReadFlagValueAt(f: Field, raw: seq<bv8>, index: nat, i: nat)
    requires f.bitField.Some? && i < |f.bitField.value|
    ensures ReadFlagValues(f, raw, index)[i]
            == Unsigned(Slice(Window(raw, index, f.formatSize), Offset(Sizes(f.bitField.value), i), f.bitField.value[i].size))
    ensures ReadFlagValues(f, raw, index)[i] < Pow2(f.bitField.value[i].size)
  {
    var w, sizes := Window(raw, index, f.formatSize), Sizes(f.bitField.value);
    GroupAt(w, sizes, 0, i);
    GroupBound(w, sizes, 0, i);
  }

  /** The table of the requirement lookups: keys 1, 2, 3 with tags C1, none, C2. */
  const RequiresTable := [Enumeration(1, Some("C1"), None), Enumeration(2, None, None), Enumeration(3, Some("C2"), None)]

  function WithTable(l: Option<seq<Enumeration>>): Field {
    Field(Some("fLags"), None, None, 0, None, Some(l))
  }

  /** getRequires on that table: each key's own tag, null for key 2, a null key and a null list. */
  lemma GetRequiresExample()
    ensures GetRequires(WithTable(Some(RequiresTable)), Some(1)) == Some("C1")
    ensures GetRequires(WithTable(Some(RequiresTable)), Some(2)) == None
    ensures GetRequires(WithTable(Some(RequiresTable)), Some(3)) == Some("C2")
    ensures GetRequires(WithTable(Some(RequiresTable)), None) == None
    ensures GetRequires(WithTable(None), Some(1)) == None
  {
    RequiresTableAt(0);
    RequiresTableAt(1);
    RequiresTableAt(2);
  }

  /** Entry i of the table holds key i + 1, so that key's requirement is entry i's. */
  lemma RequiresTableAt(i: nat)
    requires i < |RequiresTable|
    ensures GetRequires(WithTable(Some(RequiresTable)), Some(i + 1)) == RequiresTable[i].requirement
  {
    var f := WithTable(Some(RequiresTable));
    GetRequiresOfKey(f, i + 1);
    assert FirstWithKey(EnumList(f), i + 1, i);
  }

  /** getEnumeration picks the entry of key 2 with its own tag and text; key 4 is absent. */
  lemma GetEnumerationExample()
    ensures var l := [Enumeration(1, Some("C1"), Some("First")), Enumeration(2, Some("C2"), Some("Second")),
                      Enumeration(3, Some("C2"), Some("Third"))];
      GetEnumeration(WithTable(Some(l)), Some(2)) == Some(l[1])
      && GetEnumeration(WithTable(Some(l)), Some(4)) == None
      && GetEnumerationsByValue(WithTable(Some(l)), Some("Third")) == [l[2]]
  {
  }

  /** getAllOpCodes: nothing for a field without a table, and every tag, null included, for the three-entry table. */
  lemma AllOpCodesExample()
    ensures OpCodeTags(Field(Some("fLags"), None, None, 0, None, None)) == {}
    ensures OpCodeTags(WithTable(Some(RequiresTable))) == {Some("C1"), None, Some("C2")}
  {
    var f := WithTable(Some(RequiresTable));
    assert RequiresTable[0] in EnumList(f) && RequiresTable[1] in EnumList(f) && RequiresTable[2] in EnumList(f);
  }
}
