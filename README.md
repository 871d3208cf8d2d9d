# GATT specification layer: field roles, requirement analysis, bit groups, reference expansion

This project is a Dafny model of the specification layer of the Bluetooth
GATT parser `bluetooth-gatt-parser`. That layer describes each GATT
characteristic as a list of fields. The model covers what the layer computes
from those lists, with proofs:

- The lookups a `Field` offers: its trimmed name, and its enumeration table by
  key and by value.
- The flag tags and op-code tags a `Field` can produce.
- How `parseReadFlags` cuts a flags field's bit window out of the raw bytes and
  splits it into unsigned groups.
- The "flags" and "op code(s)" role tests of `Field`, `IFlagUtils` and `Value`.
- The requirement tags a characteristic's ordinary fields impose.
- The validation that decides whether a characteristic can be read or written.
- The expansion of referencing fields by the fields of the characteristic they
  refer to.
- The reader's registry bookkeeping: indexing by UUID and by trimmed type, the
  spec-file paths derived from a catalog path, and the inversion of the
  UUID-to-type catalog.

Layout, one module per file:

| Module (file) | Contents |
|---|---|
| `Wrappers` (`wrappers.dfy`) | `Option`. It stands for Java's `null` and `Optional`. |
| `JavaStrings` (`java_strings.dfy`) | `String.trim`, ASCII `equalsIgnoreCase`, `lastIndexOf` and decimal printing. |
| `BitGroups` (`bit_groups.dfy`) | Bit numbering as `BitSet.valueOf`, windows, LSB-first unsigned values, groups at cumulative offsets. |
| `Fields` (`fields.dfy`) | The `Enumeration`, `Bit` and `Field` datatypes and the operations of `Field.java`. |
| `FlagUtils` (`flag_utils.dfy`) | The static tests of `IFlagUtils.java` and the contract of `getReadFlags`. |
| `Searches` (`searches.dfy`) | First and last match in a list. They specify `Value.getFlags` and the loop of `validate`. |
| `Values` (`values.dfy`) | `class Value` of `Value.java`. |
| `RequirementAnalysis` (`requirement_analysis.dfy`) | Specification functions for `getRequirements` and `validate`, with lemmas. |
| `Expansion` (`expansion.dfy`) | Specification of `getFields`' reference expansion over a catalog of loaded types, with lemmas. |
| `Reader` (`reader.dfy`) | `class Characteristic` and `class SpecificationReader`. The latter holds the registries as `map` fields, and its methods update them in place. |

Java's `null` is `None` throughout. A `Field`'s enumerations are an
`Option<Option<seq<Enumeration>>>`. The outer `Option` is the `Enumerations`
wrapper object, and the inner one is the list inside it. Either can be null in
the source.

Where a Java call would throw a `NullPointerException`, the model puts that case
in a `requires` clause. There are four such cases:

- validating a characteristic without a value;
- the op-code test on an op-code-named field whose wrapper holds a null list;
- parsing the flags of a field without a bit field (`parseReadFlags` and the
  flag names built on it);
- expanding a reference to an unknown type, one that is not registered.

`Value.getFlags` returns the *first* flags field, while the loop of `validate`
keeps the *last* one. The model has both: see `Values.FirstFlags`,
`RequirementAnalysis.LastFlags` and `RequirementAnalysis.FirstAndLastFlagsDiffer`.

## Model

| member | source | states |
|---|---|---|
| JavaStrings.TrimSpec | src/main/java/org/sputnikdev/bluetooth/gattparser/spec/Field.java:75-77 | `String.trim` as used by `getName` gives the middle part of the string. Everything before and after that part is a character `<= ' '`, and the result neither starts nor ends with such a character. |
| JavaStrings.TrimIdempotent | src/main/java/org/sputnikdev/bluetooth/gattparser/spec/Field.java:75-77 | Trimming twice is trimming once. |
| JavaStrings.TrimUnpadded | src/main/java/org/sputnikdev/bluetooth/gattparser/spec/Field.java:75-77 | A string with non-trimmable ends is its own trim. |
| JavaStrings.EqualsIgnoreCaseSpec | src/main/java/org/sputnikdev/bluetooth/gattparser/spec/IFlagUtils.java:15 | `equalsIgnoreCase` holds iff the lengths are equal and every position agrees after ASCII lower-casing. |
| JavaStrings.EqualsLowerLiteral | src/main/java/org/sputnikdev/bluetooth/gattparser/spec/IFlagUtils.java:15 | Comparing a lower-case literal with a string ignoring case asks whether the string lower-cases to the literal. |
| JavaStrings.EqualsIgnoreCaseProperties | src/main/java/org/sputnikdev/bluetooth/gattparser/spec/IFlagUtils.java:20 | The comparison is symmetric and reflexive. |
| JavaStrings.LastIndexOf | src/main/java/org/sputnikdev/bluetooth/gattparser/spec/BluetoothGattSpecificationReader.java:230 | The result is -1 when the character is absent. Otherwise it is an index holding that character, with no such character after it. |
| Fields.GetName | src/main/java/org/sputnikdev/bluetooth/gattparser/spec/Field.java:75-77 | The name is null exactly when the stored name is null. |
| Fields.GetNameTrims | src/main/java/org/sputnikdev/bluetooth/gattparser/spec/Field.java:75-77 | A present name comes back as its trimmed middle part, without trimmable ends. |
| Fields.HasEnumerations | src/main/java/org/sputnikdev/bluetooth/gattparser/spec/Field.java:147-150 | True iff the wrapper and the list are both present and the list is non-empty. |
| Fields.FindByKey | src/main/java/org/sputnikdev/bluetooth/gattparser/spec/Field.java:163-165 | Any entry found is in the table and has the key. Nothing is found iff no entry has the key. When an entry has it, the result is the first such entry. |
| Fields.GetEnumeration | src/main/java/org/sputnikdev/bluetooth/gattparser/spec/Field.java:158-166 | A null key finds nothing. A found entry is in the table and carries the key. Nothing is found iff no entry has the key, which includes a missing wrapper or list. |
| Fields.GetRequires | src/main/java/org/sputnikdev/bluetooth/gattparser/spec/Field.java:154-156 | The result is null for a null key or an empty or missing table. A non-null result is the tag of an entry with that key. It is null when every entry with that key has a null tag. |
| Fields.GetRequiresOfKey | src/main/java/org/sputnikdev/bluetooth/gattparser/spec/Field.java:154-156 | When some entry has the key, the result is the tag of an entry with that key, null or not. It is the tag of the first entry with the key. |
| Fields.FilterByValue | src/main/java/org/sputnikdev/bluetooth/gattparser/spec/Field.java:173-176 | Exactly the entries whose display text equals the argument are kept, never more than the table holds. |
| Fields.GetEnumerationsByValue | src/main/java/org/sputnikdev/bluetooth/gattparser/spec/Field.java:168-177 | Empty for a null argument. Otherwise exactly the entries of the table whose value equals the argument. |
| Fields.FilterByValueAppend | src/main/java/org/sputnikdev/bluetooth/gattparser/spec/Field.java:173-176 | Filtering distributes over concatenation, so the table's order is kept. |
| Fields.AllFlags | src/main/java/org/sputnikdev/bluetooth/gattparser/spec/Field.java:179-191 | The nested loops produce every non-null tag of every bit's table. Without a bit field the result is empty. |
| Fields.AllOpCodes | src/main/java/org/sputnikdev/bluetooth/gattparser/spec/Field.java:193-202 | The loop produces every entry's tag, null included. The result is empty when the wrapper or its list is null. |
| Fields.RequiresAmongOpCodeTags | src/main/java/org/sputnikdev/bluetooth/gattparser/spec/Field.java:154-156 | For a key in the table, the tag `getRequires` selects is one of the op-code tags. |
| Fields.ReadFlagValueAt | src/main/java/org/sputnikdev/bluetooth/gattparser/spec/Field.java:205-214 | Value i of `parseReadFlags` is the unsigned value of the window's bits from the sum of the earlier bits' sizes, as many as bit i's size. It is below 2 to that size. |
| Fields.FlagFieldByName | src/main/java/org/sputnikdev/bluetooth/gattparser/spec/Field.java:218-220 | `isFlagField` holds iff a bit field is present and the stored name, trimmed, lower-cases to "flags". |
| Fields.OpCodesFieldByName | src/main/java/org/sputnikdev/bluetooth/gattparser/spec/Field.java:222-226 | `isOpCodesField` holds iff the stored name, trimmed, lower-cases to "op code" or "op codes", and the enumeration list is present and non-empty. |
| Fields.ParseReadFlags | src/main/java/org/sputnikdev/bluetooth/gattparser/spec/Field.java:204-215 | The array filled with a running offset equals the groups of the window `[index, index + formatSize)`, split by the bits' sizes. `Bit.getIndex` plays no part. |
| Fields.GetRequiresExample | src/test/java/org/sputnikdev/bluetooth/gattparser/spec/FlagUtilsTest.java:100-118 | On the table of keys 1, 2, 3 with tags C1, null, C2, the keys give C1, null and C2. A null key and a null list give null. |
| Fields.GetEnumerationExample | src/test/java/org/sputnikdev/bluetooth/gattparser/spec/FlagUtilsTest.java:120-135 | Key 2 finds its own entry and key 4 finds nothing. The lookup by value "Third" gives the one entry with that text. |
| Fields.AllOpCodesExample | src/test/java/org/sputnikdev/bluetooth/gattparser/spec/FlagUtilsTest.java:137-151 | There are no op codes without a table. The three-entry table yields C1, null and C2. |
| BitGroups.RawBitAt | src/main/java/org/sputnikdev/bluetooth/gattparser/spec/Field.java:205 | Bit n of the data is bit n mod 8 of byte n div 8. A bit past the end reads 0. |
| BitGroups.Window | src/main/java/org/sputnikdev/bluetooth/gattparser/spec/Field.java:205 | A window has exactly the requested width. |
| BitGroups.WindowAt | src/main/java/org/sputnikdev/bluetooth/gattparser/spec/Field.java:205 | Bit j of the window is bit `from + j` of the data. |
| BitGroups.SliceInside | src/main/java/org/sputnikdev/bluetooth/gattparser/spec/Field.java:211 | Inside the window, `BitSet.get(offset, offset + size)` is the window's own run of bits. |
| BitGroups.SlicePastEnd | src/main/java/org/sputnikdev/bluetooth/gattparser/spec/Field.java:211 | A run that starts at or past the end of the window reads as all clear bits. |
| BitGroups.ShiftLeftIsProduct | src/main/java/org/sputnikdev/bluetooth/gattparser/spec/Field.java:211 | Shifting a group left by n bits multiplies it by 2^n. |
| BitGroups.UnsignedBound | src/main/java/org/sputnikdev/bluetooth/gattparser/spec/Field.java:211 | An unsigned value of n bits is below 2^n. |
| BitGroups.UnsignedOfZeros | src/main/java/org/sputnikdev/bluetooth/gattparser/spec/Field.java:211 | All-zero bits decode to 0. |
| BitGroups.UnsignedAppend | src/main/java/org/sputnikdev/bluetooth/gattparser/spec/Field.java:211 | The value of `a + b` is the value of `a` plus the value of `b` shifted by the length of `a`. |
| BitGroups.SliceSplit | src/main/java/org/sputnikdev/bluetooth/gattparser/spec/Field.java:211-212 | Two adjacent slices concatenate into one. |
| BitGroups.Groups | src/main/java/org/sputnikdev/bluetooth/gattparser/spec/Field.java:207-213 | There is one value per group size. |
| BitGroups.GroupAt | src/main/java/org/sputnikdev/bluetooth/gattparser/spec/Field.java:208-212 | Group i is the unsigned value of the bits starting at the sum of the earlier sizes, of width `size_i`. |
| BitGroups.OffsetOfTail | src/main/java/org/sputnikdev/bluetooth/gattparser/spec/Field.java:212 | The running offset after the first group is the first size plus the offsets of the rest. |
| BitGroups.GroupBound | src/main/java/org/sputnikdev/bluetooth/gattparser/spec/Field.java:211 | Each group's value fits in its width. |
| BitGroups.GroupPastWindowIsZero | src/main/java/org/sputnikdev/bluetooth/gattparser/spec/Field.java:205-211 | A group that starts past the window decodes to 0. |
| BitGroups.GroupsReassemble | src/main/java/org/sputnikdev/bluetooth/gattparser/spec/Field.java:208-213 | The groups tile the bits with no gap and no overlap. Putting each back at its offset gives the value of the whole run. |
| BitGroups.GroupsCoverWindow | src/main/java/org/sputnikdev/bluetooth/gattparser/spec/Field.java:205-213 | When the sizes add up to the window's width, the groups reassemble the whole window. |
| BitGroups.GroupsCons | src/main/java/org/sputnikdev/bluetooth/gattparser/spec/Field.java:209-213 | One step of decoding: the first group is read at the offset, and the rest are read after it. |
| BitGroups.DecodeExample | src/test/java/org/sputnikdev/bluetooth/gattparser/spec/FlagUtilsTest.java:83-93 | Widths 1, 2, 1, 3, 2, 2, 4 over the bytes 0b10100101, 0b01010001 decode to 1, 2, 0, 2, 3, 0, 10. |
| FlagUtils.RolePredicatesAgree | src/main/java/org/sputnikdev/bluetooth/gattparser/spec/IFlagUtils.java:14-40 | `isFlagsField` and `isOpCodesField` decide exactly as `Field.isFlagField` and `Field.isOpCodesField` (Field.java:218-226). |
| FlagUtils.IsOpCodesField | src/main/java/org/sputnikdev/bluetooth/gattparser/spec/IFlagUtils.java:18-40 | The test is false unless the name is "op code" or "op codes" ignoring case. It is false without a wrapper. With both present, it is true iff the list is non-empty. A null list under a matching name is excluded by the precondition. |
| FlagUtils.FlagsFieldExample | src/test/java/org/sputnikdev/bluetooth/gattparser/spec/FlagUtilsTest.java:65 | " fLags " with a bit field is the flags field: the name is trimmed and the case ignored. |
| FlagUtils.NotFlagsFieldExample | src/main/java/org/sputnikdev/bluetooth/gattparser/spec/IFlagUtils.java:14-16 | Without a bit field, or under the name "flag", a field is not the flags field. |
| FlagUtils.OpCodesFieldExample | src/main/java/org/sputnikdev/bluetooth/gattparser/spec/IFlagUtils.java:18-34 | "Op Codes" with a one-entry list is an op-code field. It is not one with an empty list, and "Op Code List" is not one either. |
| FlagUtils.ReadFlagsOfFieldSize | src/main/java/org/sputnikdev/bluetooth/gattparser/spec/IFlagUtils.java:9 | One flags field gives at most one flag name per bit group. When different groups never share a name, it gives exactly one per group, as the test's seven names for seven groups show. |
| FlagUtils.ReadFlagValuesExample | src/test/java/org/sputnikdev/bluetooth/gattparser/spec/FlagUtilsTest.java:73-93 | `parseReadFlags` on the test's 15-bit flags field yields 1, 2, 0, 2, 3, 0, 10. |
| FlagUtils.ReadFlagsExample | src/test/java/org/sputnikdev/bluetooth/gattparser/spec/FlagUtilsTest.java:95-97 | The flag names for those bytes are exactly A1, B2, C0, D2, E3, F0, G10. |
| FlagUtils.ReadFlagsExampleSize | src/test/java/org/sputnikdev/bluetooth/gattparser/spec/FlagUtilsTest.java:96 | There are seven of them. |
| Searches.FirstFrom | src/main/java/org/bluetooth/gattparser/spec/Value.java:23-28 | The first match at or after a position: none iff nothing there matches. A result matches, and every element before it fails. |
| Searches.LastBefore | src/main/java/org/sputnikdev/bluetooth/gattparser/spec/BluetoothGattSpecificationReader.java:317-324 | The last match among the first n: none iff nothing matches. A result matches, and every element after it fails. |
| Searches.FirstAndLastAgreeOnExistence | src/main/java/org/bluetooth/gattparser/spec/Value.java:23-28 | The first and the last match exist together. |
| Searches.SingleMatch | src/main/java/org/bluetooth/gattparser/spec/Value.java:23-28 | With a single match, the first and the last are that element. |
| Values.FirstFlags | src/main/java/org/bluetooth/gattparser/spec/Value.java:22-29 | It is none iff no field is a flags field. A result is a flags field, and every field before it is not one. |
| Values.Value.SetFields | src/main/java/org/bluetooth/gattparser/spec/Value.java:14-20 | Afterwards the stored list is the argument, and `getFields` returns exactly it. |
| Values.Value.GetFlags | src/main/java/org/bluetooth/gattparser/spec/Value.java:22-29 | The loop with early return yields the first flags field, or null. |
| RequirementAnalysis.Requirements | src/main/java/org/sputnikdev/bluetooth/gattparser/spec/BluetoothGattSpecificationReader.java:276-296 | A tag is required iff a field lists it that has no bit field, a non-empty list without "Mandatory", and is not a last field listing exactly "Optional". |
| RequirementAnalysis.RequirementsBefore | src/main/java/org/sputnikdev/bluetooth/gattparser/spec/BluetoothGattSpecificationReader.java:278-294 | The same, over the fields before a position. |
| RequirementAnalysis.RequirementsBeforeStep | src/main/java/org/sputnikdev/bluetooth/gattparser/spec/BluetoothGattSpecificationReader.java:278-294 | One more field adds its tags exactly when it passes the filters. |
| RequirementAnalysis.SkippedFieldContributesNothing | src/main/java/org/sputnikdev/bluetooth/gattparser/spec/BluetoothGattSpecificationReader.java:280-289 | Clearing the requirements of a field changes nothing when that field has a bit field, null or empty requirements, or "Mandatory" among them, wherever it sits. |
| RequirementAnalysis.ListedTagRequired | src/main/java/org/sputnikdev/bluetooth/gattparser/spec/BluetoothGattSpecificationReader.java:283-293 | A tag listed by a field without a bit field and without "Mandatory" is required, unless the field is last and lists exactly "Optional". |
| RequirementAnalysis.RequiredTagSource | src/main/java/org/sputnikdev/bluetooth/gattparser/spec/BluetoothGattSpecificationReader.java:280-293 | Every required tag comes from such a field. |
| RequirementAnalysis.OptionalTailExempt | src/main/java/org/sputnikdev/bluetooth/gattparser/spec/BluetoothGattSpecificationReader.java:290-292 | A lone "Optional" on the last field adds nothing. |
| RequirementAnalysis.AppendOptionalTail | src/main/java/org/sputnikdev/bluetooth/gattparser/spec/BluetoothGattSpecificationReader.java:290-293 | Appending a lone-"Optional" field adds nothing itself. The field it displaces from the end now adds "Optional" if it was a lone "Optional" without a bit field. So the exemption depends on position only. |
| RequirementAnalysis.LastFlags | src/main/java/org/sputnikdev/bluetooth/gattparser/spec/BluetoothGattSpecificationReader.java:315-320 | The flags field `validate` keeps: none iff there is none. Otherwise it is a flags field with no flags field after it. |
| RequirementAnalysis.LastOpCodes | src/main/java/org/sputnikdev/bluetooth/gattparser/spec/BluetoothGattSpecificationReader.java:316-323 | The same for the op-code field. |
| RequirementAnalysis.NoFlagsField | src/main/java/org/sputnikdev/bluetooth/gattparser/spec/BluetoothGattSpecificationReader.java:325-335 | Without a flags field, the list is valid for reading iff it requires nothing. |
| RequirementAnalysis.NoOpCodesField | src/main/java/org/sputnikdev/bluetooth/gattparser/spec/BluetoothGattSpecificationReader.java:326-339 | Without an op-code field, the list is valid for writing iff it requires nothing. |
| RequirementAnalysis.NothingRequired | src/main/java/org/sputnikdev/bluetooth/gattparser/spec/BluetoothGattSpecificationReader.java:280-286 | A list whose fields all have a bit field or no requirements imposes nothing, and is valid both ways. |
| RequirementAnalysis.FirstAndLastFlags | src/main/java/org/sputnikdev/bluetooth/gattparser/spec/BluetoothGattSpecificationReader.java:317-320 | `getFlags` and `validate` find a flags field in the same lists, and the same one when there is at most one (Value.java:22-29). |
| RequirementAnalysis.FirstAndLastFlagsDiffer | src/main/java/org/sputnikdev/bluetooth/gattparser/spec/BluetoothGattSpecificationReader.java:317-320 | With two flags fields, `getFlags` returns the first and `validate` keeps the second (Value.java:23-26). |
| Expansion.RefsBelowAt | src/main/java/org/sputnikdev/bluetooth/gattparser/spec/BluetoothGattSpecificationReader.java:198-204 | A list's references resolve below a rank iff every field's does. |
| Expansion.ExpandStep | src/main/java/org/sputnikdev/bluetooth/gattparser/spec/BluetoothGattSpecificationReader.java:198-205 | Expanding from position i gives field i's piece, then the expansion of the rest. |
| Expansion.PieceOfReference | src/main/java/org/sputnikdev/bluetooth/gattparser/spec/BluetoothGattSpecificationReader.java:201-204 | A referencing field becomes the expansion of the referenced type's fields, or nothing when that type has no value. |
| Expansion.ExpandAppend | src/main/java/org/sputnikdev/bluetooth/gattparser/spec/BluetoothGattSpecificationReader.java:198-205 | Expansion distributes over concatenation, so the fields' order is kept. |
| Expansion.ExpandSingle | src/main/java/org/sputnikdev/bluetooth/gattparser/spec/BluetoothGattSpecificationReader.java:199-204 | Expanding one field gives its piece. |
| Expansion.ExpandHasNoReferences | src/main/java/org/sputnikdev/bluetooth/gattparser/spec/BluetoothGattSpecificationReader.java:186-188 | No referencing field survives expansion. |
| Expansion.PieceHasNoReferences | src/main/java/org/sputnikdev/bluetooth/gattparser/spec/BluetoothGattSpecificationReader.java:199-204 | The same for one field's piece. |
| Expansion.ExpandKeepsPlainFields | src/main/java/org/sputnikdev/bluetooth/gattparser/spec/BluetoothGattSpecificationReader.java:199-200 | A list without references expands to itself. |
| Expansion.ExpandIdempotent | src/main/java/org/sputnikdev/bluetooth/gattparser/spec/BluetoothGattSpecificationReader.java:193-207 | Expanding an expansion changes nothing. |
| Expansion.ExpandBesideBrokenType | src/main/java/org/sputnikdev/bluetooth/gattparser/spec/BluetoothGattSpecificationReader.java:193-207 | Next to a loaded type whose reference resolves nowhere, the example types still form a part of the loaded types with the same entries, and that part has a rank. So `GetFields` can expand a characteristic that never reaches the broken type. |
| Expansion.ExpandExample | src/main/java/org/sputnikdev/bluetooth/gattparser/spec/BluetoothGattSpecificationReader.java:195-204 | A reference to a type without a value expands to nothing, and the plain field beside it is kept. |
| Reader.SnapshotAt | src/main/java/org/sputnikdev/bluetooth/gattparser/spec/BluetoothGattSpecificationReader.java:87 | The catalog entry of a loaded type is its current field list, or none when it has no value. |
| Reader.SpecPathBesideCatalog | src/main/java/org/sputnikdev/bluetooth/gattparser/spec/BluetoothGattSpecificationReader.java:229-236 | For a catalog path `dir/file` where `file` has no '/', the spec path is `dir`, then "/", the type and ".xml". It sits in the catalog's directory whatever '/' `dir` itself holds. |
| Reader.SpecPathWithoutSlash | src/main/java/org/sputnikdev/bluetooth/gattparser/spec/BluetoothGattSpecificationReader.java:231-236 | A path without '/' is kept whole in front of the type's file name. |
| Reader.InverseUnique | src/main/java/org/sputnikdev/bluetooth/gattparser/spec/BluetoothGattSpecificationReader.java:268-269 | Any map from the listed types that sends each type back to its key is the inverse. |
| Reader.InverseRoundTrip | src/main/java/org/sputnikdev/bluetooth/gattparser/spec/BluetoothGattSpecificationReader.java:268-269 | The inverse of an injective catalog has the catalog's types as keys and sends each back to its UUID. It is injective, and its values are the catalog's keys. |
| Reader.InvertCatalog | src/main/java/org/sputnikdev/bluetooth/gattparser/spec/BluetoothGattSpecificationReader.java:268-269 | The collection succeeds iff no two UUIDs share a type. On success the result is the inverse. |
| Reader.CatalogToPaths | src/main/java/org/sputnikdev/bluetooth/gattparser/spec/BluetoothGattSpecificationReader.java:245-257 | Every catalog key, and no other, is mapped to the spec path of its type. |
| Reader.ReadVerdict | src/main/java/org/sputnikdev/bluetooth/gattparser/spec/BluetoothGattSpecificationReader.java:329-335 | `removeAll` leaves nothing iff the requirements are a subset of the read tags. |
| Reader.WriteVerdict | src/main/java/org/sputnikdev/bluetooth/gattparser/spec/BluetoothGattSpecificationReader.java:331-339 | The same against the op-code tags, which may include null. |
| Reader.SpecificationReader.constructor | src/main/java/org/sputnikdev/bluetooth/gattparser/spec/BluetoothGattSpecificationReader.java:81-87 | All registries start empty. |
| Reader.SpecificationReader.GetRequirements | src/main/java/org/sputnikdev/bluetooth/gattparser/spec/BluetoothGattSpecificationReader.java:276-296 | The iterator loop, with its look-ahead for the last field, computes exactly `Requirements`. |
| Reader.SpecificationReader.ControlFields | src/main/java/org/sputnikdev/bluetooth/gattparser/spec/BluetoothGattSpecificationReader.java:315-324 | The overwriting loop ends holding the last flags field and the last op-code field. |
| Reader.SpecificationReader.Verdicts | src/main/java/org/sputnikdev/bluetooth/gattparser/spec/BluetoothGattSpecificationReader.java:325-338 | The two checks are exactly `ValidForRead` and `ValidForWrite`. |
| Reader.SpecificationReader.Validate | src/main/java/org/sputnikdev/bluetooth/gattparser/spec/BluetoothGattSpecificationReader.java:308-347 | An empty list leaves both flags as they were. Otherwise each flag becomes its old value or the verdict for its side, so `validate` never clears one. |
| Reader.SpecificationReader.AddCharacteristic | src/main/java/org/sputnikdev/bluetooth/gattparser/spec/BluetoothGattSpecificationReader.java:298-302 | After validation, the UUID and the trimmed type map to the characteristic. Every other entry and registry is unchanged. |
| Reader.SpecificationReader.GetFields | src/main/java/org/sputnikdev/bluetooth/gattparser/spec/BluetoothGattSpecificationReader.java:193-207 | The result is empty for a characteristic without a value. Otherwise it is the expansion of its fields over the types loaded now: plain fields kept in order, and each reference replaced by the referenced type's expanded fields. |
| Reader.SpecificationReader.FieldPiece | src/main/java/org/sputnikdev/bluetooth/gattparser/spec/BluetoothGattSpecificationReader.java:199-204 | One step of that loop gives the field's piece. |
| Reader.SpecificationReader.LoadExtensionsFromCatalogResources | src/main/java/org/sputnikdev/bluetooth/gattparser/spec/BluetoothGattSpecificationReader.java:259-274 | It succeeds iff the characteristic catalog is injective. On failure no registry changes. On success each registry gains the new paths or the inverse, overriding older entries for the same key, and the characteristic indexes are untouched. |

## Left out

- Reading the catalogs and the XML spec files is left out: Gson, XStream, `readRegistryFromCatalogResource`, `getSpec`, `loadExtensionsFromFolder`, `getFilesFromFolder`, `readServices` and `readCharacteristics`. This is file and URL I/O with reflective deserialization. `LoadExtensionsFromCatalogResources` takes the two catalogs already read, plus the catalog file paths.
- URLs are modelled by their path string only. The protocol, host and port carried over by `getSpecResourceURL`, and `MalformedURLException` in `catalogToURLs`, are not modelled. Building the URL is a library call.
- The constructor's loading of the bundled catalogs from the classpath is I/O. `SpecificationReader.constructor` only starts empty registries.
- `getService`, `getCharacteristicByUUID`, `getCharacteristicByType` and `addService` are left out, and so are the services map and `getCharacteristics`/`getServices`. What they add is lazy loading from files under double-checked locking.
- `SpecificationReader.GetFields` looks a referenced type up among the characteristics already loaded by type. The caller passes a part of the loaded types, each with its current entry, that holds every type the expansion reaches. Every reference reachable from the characteristic must resolve in that part, and a rank must order the part without cycles (the source does not guard against cycles). Loaded types outside the part are not constrained. A type that is registered but not yet loaded is not modelled, because the source would load it lazily at that point and lazy loading is left out. For an unregistered type the source passes null on and fails.
- `SpecificationReader.GetFields` returns a sequence. The unmodifiable-list wrapper is not modelled.
- `SpecificationReader.Validate` requires a characteristic with a value. It also requires that no op-code-named field has an `Enumerations` wrapper holding a null list. In both cases the source throws a `NullPointerException`.
- A null `Value.fields` list, null bit tables inside a `Bit`, null enumeration keys and null requirement strings are not modelled. The source would throw on the first two. The last two are modelled as non-null values.
- `FlagUtils.IsOpCodesField` and `Fields.IsOpCodesField` require that no null list sits under a matching name. The source throws in that case.
- `equalsIgnoreCase` folds ASCII letters only. Java's folding of other Unicode letters is not modelled.
- `RealNumberFormatter` in general (two's complement, IEEE 754, IEEE 11073) is left out. Only the unsigned LSB-first decoding that `parseReadFlags` asks for is modelled. Its code is not part of this model, but the test of `parseReadFlags` fixes its result.
- `Fields.ParseReadFlags` does not model the 32-bit `int` result of the formatter. Group values are unbounded naturals, which agree with the source for groups narrower than 32 bits.
- `FieldFormat` parsing is left out. `formatSize` is the format's bit width, given as a number.
- `getReadFlags` belongs to an implementing class that is not part of this model. `FlagUtils.ReadFlagsOfField` states its contract for a single flags field read at bit 0, with the flag naming of each bit's table passed in as a function.
- `getEnumeration` uses `findAny` on a sequential stream. The model returns the first match, which is what a sequential `findAny` yields.
- The unused `flags` parameter of `getRequirements` is kept but has no effect.
- Per-request validation, hex parsing and serialisation, and the parser configuration classes are left out. They are not part of the specification layer.
- The multiplier, exponent, minimum, maximum, offset and unit getters of `Field` are plain getters over `Double` values. They are left out.
- All logging is left out.
