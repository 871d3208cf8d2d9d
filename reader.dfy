/**
 * The specification reader's in-memory bookkeeping: the registries it fills
 * from the catalogs, the characteristics it indexes by UUID and by type, the
 * validation of each characteristic it adds, and the expansion of field
 * references it performs on request.
 */
module Reader {
  import opened Wrappers
  import opened JavaStrings
  import opened Fields
  import opened Searches
  import opened Values
  import opened RequirementAnalysis
  import opened Expansion

  /** A characteristic specification: fixed identity and value, and the two validity flags the reader sets. */
  class Characteristic {
    const uuid: string
    const charType: string
    const value: Value?
    var validForRead: bool
    var validForWrite: bool

    constructor(uuid: string, charType: string, value: Value?)
      ensures this.uuid == uuid && this.charType == charType && this.value == value
      ensures !validForRead && !validForWrite
    {
      this.uuid := uuid;
      this.charType := charType;
      this.value := value;
      validForRead := false;
      validForWrite := false;
    }
  }

  /** The value objects of the characteristics in a registry. */
  ghost function ValueObjects(reg: map<string, Characteristic>): set<object> {
    set k | k in reg && reg[k].value != null :: reg[k].value
  }

  /** The field lists of the characteristics in a registry, as they stand now. */
  ghost function Snapshot(reg: map<string, Characteristic>): (cat: Catalog)
    reads ValueObjects(reg)
    ensures cat.Keys == reg.Keys
  {
    map k | k in reg :: if reg[k].value == null then None else Some(reg[k].value.fields)
  }

  /** The catalog entry of a registered type is its value's field list, or none when it has no value. */
  lemma SnapshotAt(reg: map<string, Characteristic>, k: string)
    requires k in reg
    ensures k in Snapshot(reg)
    ensures Lookup(Snapshot(reg), k) == if reg[k].value == null then None else Some(reg[k].value.fields)
  {
  }

  /** No two keys of the catalog name the same type. */
  predicate Injective(catalog: map<string, string>) {
    forall a, b :: a in catalog && b in catalog && a != b ==> catalog[a] != catalog[b]
  }

  /** The spec file of a type sits beside the catalog file: the catalog path up to its last '/', then "/", the type and ".xml". */
  function SpecPath(catalogFile: string, charType: string): string {
    var slash := LastIndexOf(catalogFile, '/');
    var dir := if slash >= 0 then catalogFile[..slash] else catalogFile;
    dir + "/" + charType + ".xml"
  }

  /** A catalog file named in a directory yields the type's file in that same directory. */
  lemma SpecPathBesideCatalog(dir: string, file: string, charType: string)
    requires '/' !in file
    ensures SpecPath(dir + "/" + file, charType) == dir + "/" + charType + ".xml"
  {
    var path := dir + "/" + file;
    assert path[|dir|] == '/';
    var p := LastIndexOf(path, '/');
    assert p == |dir| by {
      assert forall j :: |dir| < j < |path| ==> path[j] == file[j - |dir| - 1];
    }
    assert path[..p] == dir;
  }

  /** A catalog path without any '/' is kept whole in front of the type's file name. */
  lemma SpecPathWithoutSlash(file: string, charType: string)
    requires '/' !in file
    ensures SpecPath(file, charType) == file + "/" + charType + ".xml"
  {
  }

  /** The type-to-key map of an injective catalog: each listed type to the one key that lists it. */
  ghost function InverseOf(catalog: map<string, string>): map<string, string>
    requires Injective(catalog)
  {
    map t | t in catalog.Values :: var k :| k in catalog && catalog[k] == t; k
  }

  /** A map sending every listed type back to the key that lists it is the inverse. */
  lemma InverseUnique(catalog: map<string, string>, inverse: map<string, string>)
    requires Injective(catalog)
    requires inverse.Keys == catalog.Values
    requires forall k :: k in catalog ==> inverse[catalog[k]] == k
    ensures inverse == InverseOf(catalog)
  {
    forall t | t in inverse ensures inverse[t] == InverseOf(catalog)[t] {
      var k :| k in catalog && catalog[k] == t;
    }
  }

  /** Inverting an injective catalog loses nothing: the inverse is injective too and maps each type back to its key. */
  lemma InverseRoundTrip(catalog: map<string, string>)
    requires Injective(catalog)
    ensures InverseOf(catalog).Keys == catalog.Values
    ensures forall k :: k in catalog ==> InverseOf(catalog)[catalog[k]] == k
    ensures Injective(InverseOf(catalog))
    ensures InverseOf(catalog).Values == catalog.Keys
    ensures forall t :: t in InverseOf(catalog) ==> InverseOf(catalog)[t] in catalog && catalog[InverseOf(catalog)[t]] == t
  {
    var inverse := InverseOf(catalog);
    forall k | k in catalog ensures catalog[k] in inverse && inverse[catalog[k]] == k {
      assert catalog[k] in catalog.Values;
    }
    forall k | k in catalog ensures k in inverse.Values {
      assert catalog[k] in inverse;
    }
  }

  /**
   * The type-to-UUID registry built from a UUID-to-type catalog; a type
   * listed twice makes the collector throw, reported here as !ok.
   */
  method InvertCatalog(catalog: map<string, string>) returns (ok: bool, inverse: map<string, string>)
    ensures ok <==> Injective(catalog)
    ensures ok ==> inverse.Keys == catalog.Values && forall k :: k in catalog ==> inverse[catalog[k]] == k
    ensures ok ==> inverse == InverseOf(catalog)
  {
    inverse := map[];
    var remaining := catalog.Keys;
    while remaining != {}
      invariant remaining <= catalog.Keys
      invariant forall k :: k in catalog && k !in remaining ==> catalog[k] in inverse && inverse[catalog[k]] == k
      invariant forall t :: t in inverse ==> exists k :: k in catalog && k !in remaining && catalog[k] == t
      invariant forall a, b :: a in catalog && b in catalog && a !in remaining && b !in remaining && a != b
                  ==> catalog[a] != catalog[b]
      decreases |remaining|
    {
      var k :| k in remaining;
      if catalog[k] in inverse {
        var other := inverse[catalog[k]];
        assert other in catalog && other !in remaining && other != k && catalog[other] == catalog[k];
        return false, inverse;
      }
      inverse := inverse[catalog[k] := k];
      remaining := remaining - {k};
    }
    ok := true;
    InverseUnique(catalog, inverse);
  }

  /** The registry of spec files a catalog lists: each key to the file of its type beside the catalog file. */
  function PathRegistry(catalogFile: string, catalog: map<string, string>): map<string, string> {
    map k | k in catalog :: SpecPath(catalogFile, catalog[k])
  }

  /** catalogToURLs: builds the registry of spec files entry by entry. */
  method CatalogToPaths(catalogFile: string, catalog: map<string, string>) returns (r: map<string, string>)
    ensures r.Keys == catalog.Keys
    ensures forall k :: k in catalog ==> r[k] == SpecPath(catalogFile, catalog[k])
    ensures r == PathRegistry(catalogFile, catalog)
  {
    r := map[];
    var remaining := catalog.Keys;
    while remaining != {}
      invariant remaining <= catalog.Keys
      invariant r.Keys == catalog.Keys - remaining
      invariant forall k :: k in r ==> r[k] == SpecPath(catalogFile, catalog[k])
      decreases |remaining|
    {
      var k :| k in remaining;
      r := r[k := SpecPath(catalogFile, catalog[k])];
      remaining := remaining - {k};
    }
  }

  /** Nothing is left unfulfilled exactly when the produced tags cover the required ones. */
  lemma ReadVerdict(required: set<string>, produced: set<string>)
    ensures required - produced == {} <==> required <= produced
  {
    if required <= produced {
      assert forall t :: t !in required - produced;
    } else {
      var t :| t in required && t !in produced;
      assert t in required - produced;
    }
  }

  /** removeAll against the op-code tags removes a required tag exactly when the tag is among them. */
  lemma WriteVerdict(required: set<string>, produced: set<Option<string>>)
    ensures (set t | t in required && Some(t) !in produced) == {} <==> forall t :: t in required ==> Some(t) in produced
  {
    var left := set t | t in required && Some(t) !in produced;
    if forall t :: t in required ==> Some(t) in produced {
      assert forall t :: t !in left;
    } else {
      var t :| t in required && Some(t) !in produced;
      assert t in left;
    }
  }

  class SpecificationReader {
    var servicesRegistry: map<string, string>
    var characteristicsRegistry: map<string, string>
    var characteristicsTypeRegistry: map<string, string>
    var characteristicsByUUID: map<string, Characteristic>
    var characteristicsByType: map<string, Characteristic>

    /** A reader with empty registries; loading the bundled catalogs is a separate call. */
    constructor()
      ensures servicesRegistry == map[] && characteristicsRegistry == map[] && characteristicsTypeRegistry == map[]
      ensures characteristicsByUUID == map[] && characteristicsByType == map[]
    {
      servicesRegistry := map[];
      characteristicsRegistry := map[];
      characteristicsTypeRegistry := map[];
      characteristicsByUUID := map[];
      characteristicsByType := map[];
    }

    /** getRequirements: the tags the list's ordinary fields impose, gathered with the iterator's look-ahead test for the last field. */
    method GetRequirements(fields: seq<Field>, flags: Option<Field>) returns (result: set<string>)
      ensures result == Requirements(fields)
    {
      result := {};
      var i := 0;
      while i < |fields|
        invariant 0 <= i <= |fields|
        invariant result == RequirementsBefore(fields, i)
      {
        var field := fields[i];
        RequirementsBeforeStep(fields, i);
        i := i + 1;
        if field.bitField.Some? {
          continue;
        }
        if field.requirements.None? || field.requirements.value == [] {
          continue;
        }
        var requirements := field.requirements.value;
        if Mandatory in requirements {
          continue;
        }
        if |requirements| == 1 && Optional in requirements && !(i < |fields|) {
          continue;
        }
        result := result + set t | t in requirements;
      }
    }

    /** The loop of validate: each flags or op-code field it meets replaces the one held before. */
    method ControlFields(fields: seq<Field>) returns (flags: Option<Field>, opCodes: Option<Field>)
      requires forall i :: 0 <= i < |fields| ==> OpCodesDefined(fields[i])
      ensures flags == LastFlags(fields) && opCodes == LastOpCodes(fields)
    {
      flags, opCodes := None, None;
      for i := 0 to |fields|
        invariant flags == LastBefore(fields, IsFlagField, i)
        invariant opCodes == LastBefore(fields, OpCodesRole, i)
      {
        if IsFlagField(fields[i]) {
          flags := Some(fields[i]);
        }
        if IsOpCodesField(fields[i]) {
          opCodes := Some(fields[i]);
        }
      }
    }

    /** The checks of validate on a non-empty list: whether no required tag is left unproduced on each side. */
    method Verdicts(fields: seq<Field>) returns (readable: bool, writable: bool)
      requires forall i :: 0 <= i < |fields| ==> OpCodesDefined(fields[i])
      ensures readable == ValidForRead(fields) && writable == ValidForWrite(fields)
    {
      var flags, opCodes := ControlFields(fields);
      var readFlags: set<string> := {};
      if flags.Some? {
        readFlags := AllFlags(flags.value);
      }
      var writeFlags: set<Option<string>> := {};
      if opCodes.Some? {
        writeFlags := AllOpCodes(opCodes.value);
      }
      var requirements := GetRequirements(fields, flags);
      assert readFlags == ReadTags(fields);
      assert writeFlags == WriteTags(fields);
      var unfulfilledRead := requirements - readFlags;
      var unfulfilledWrite := set t | t in requirements && Some(t) !in writeFlags;
      ReadVerdict(requirements, readFlags);
      WriteVerdict(requirements, writeFlags);
      readable := unfulfilledRead == {};
      writable := unfulfilledWrite == {};
    }

    /**
     * validate: keeps the last flags and the last op-code field, and sets each
     * validity flag when that side produces every required tag; it never clears one.
     */
    method Validate(c: Characteristic)
      requires c.value != null
      requires forall i :: 0 <= i < |c.value.fields| ==> OpCodesDefined(c.value.fields[i])
      modifies c
      ensures c.value.fields == [] ==> c.validForRead == old(c.validForRead) && c.validForWrite == old(c.validForWrite)
      ensures c.value.fields != [] ==> c.validForRead == (old(c.validForRead) || ValidForRead(c.value.fields))
      ensures c.value.fields != [] ==> c.validForWrite == (old(c.validForWrite) || ValidForWrite(c.value.fields))
    {
      var fields := c.value.fields;
      if fields == [] {
        return;
      }
      var readable, writable := Verdicts(fields);
      if readable {
        c.validForRead := true;
      }
      if writable {
        c.validForWrite := true;
      }
    }

    /** addCharacteristic: validates it, then indexes it by UUID and by trimmed type; nothing else changes. */
    method AddCharacteristic(c: Characteristic)
      requires c.value != null
      requires forall i :: 0 <= i < |c.value.fields| ==> OpCodesDefined(c.value.fields[i])
      modifies this, c
      ensures characteristicsByUUID == old(characteristicsByUUID)[c.uuid := c]
      ensures characteristicsByType == old(characteristicsByType)[Trim(c.charType) := c]
      ensures servicesRegistry == old(servicesRegistry) && characteristicsRegistry == old(characteristicsRegistry)
      ensures characteristicsTypeRegistry == old(characteristicsTypeRegistry)
      ensures c.value.fields == [] ==> c.validForRead == old(c.validForRead) && c.validForWrite == old(c.validForWrite)
      ensures c.value.fields != [] ==> c.validForRead == (old(c.validForRead) || ValidForRead(c.value.fields))
      ensures c.value.fields != [] ==> c.validForWrite == (old(c.validForWrite) || ValidForWrite(c.value.fields))
    {
      Validate(c);
      characteristicsByUUID := characteristicsByUUID[c.uuid := c];
      characteristicsByType := characteristicsByType[Trim(c.charType) := c];
    }

    /**
     * getFields over the characteristics loaded by type: nothing for a
     * characteristic without a value, otherwise its fields with every reference
     * expanded in place. cat is part of the registry as it stands, holding at
     * least the types the expansion reaches, and rank witnesses that references
     * among them do not loop.
     */
    method GetFields(c: Characteristic, ghost cat: Catalog, ghost rank: map<string, nat>, ghost bound: nat) returns (r: seq<Field>)
      requires SubCatalog(cat, Snapshot(characteristicsByType)) && Acyclic(cat, rank)
      requires c.value != null ==> RefsBelow(cat, c.value.fields, rank, bound)
      ensures c.value == null ==> r == []
      ensures c.value != null ==> RefsBelow(cat, c.value.fields, rank, bound) && r == Expand(cat, rank, c.value.fields, bound)
      decreases bound, 1
    {
      if c.value == null {
        return [];
      }
      var fields := c.value.fields;
      r := [];
      for i := 0 to |fields|
        invariant RefsBelow(cat, fields[i..], rank, bound)
        invariant Expand(cat, rank, fields, bound) == r + Expand(cat, rank, fields[i..], bound)
        invariant SubCatalog(cat, Snapshot(characteristicsByType))
      {
        ExpandPrefixStep(cat, rank, fields, i, bound, r);
        var expanded := FieldPiece(fields[i], cat, rank, bound);
        r := r + expanded;
      }
      assert fields[|fields|..] == [];
    }

    /** One step of getFields' loop: a plain field is kept, a referencing one becomes its referenced type's expanded fields. */
    method FieldPiece(field: Field, ghost cat: Catalog, ghost rank: map<string, nat>, ghost bound: nat) returns (piece: seq<Field>)
      requires SubCatalog(cat, Snapshot(characteristicsByType)) && Acyclic(cat, rank) && RefBelow(cat, field, rank, bound)
      ensures piece == Piece(cat, rank, field, bound)
      decreases bound, 0
    {
      if field.reference.None? {
        return [field];
      }
      var key := Trim(field.reference.value);
      var referenced := characteristicsByType[key];
      PieceOfReference(cat, rank, field, bound);
      SnapshotAt(characteristicsByType, key);
      piece := GetFields(referenced, cat, rank, rank[key]);
    }

    /**
     * loadExtensionsFromCatalogResources, given the two catalogs already read:
     * adds the spec file of every listed service and characteristic and the
     * type-to-UUID inverse of the characteristic catalog; a type listed twice
     * aborts before any registry changes.
     */
    method LoadExtensionsFromCatalogResources(
      servicesFile: string, services: map<string, string>,
      characteristicsFile: string, characteristics: map<string, string>) returns (ok: bool)
      modifies this
      ensures ok <==> Injective(characteristics)
      ensures characteristicsByUUID == old(characteristicsByUUID) && characteristicsByType == old(characteristicsByType)
      ensures !ok ==> servicesRegistry == old(servicesRegistry) && characteristicsRegistry == old(characteristicsRegistry)
                      && characteristicsTypeRegistry == old(characteristicsTypeRegistry)
      ensures ok ==> servicesRegistry == old(servicesRegistry) + PathRegistry(servicesFile, services)
      ensures ok ==> characteristicsRegistry == old(characteristicsRegistry) + PathRegistry(characteristicsFile, characteristics)
      ensures ok ==> characteristicsTypeRegistry == old(characteristicsTypeRegistry) + InverseOf(characteristics)
    {
      var loadedServices := CatalogToPaths(servicesFile, services);
      var loadedCharacteristics := CatalogToPaths(characteristicsFile, characteristics);
      var inverse;
      ok, inverse := InvertCatalog(characteristics);
      if !ok {
        return;
      }
      servicesRegistry := servicesRegistry + loadedServices;
      characteristicsRegistry := characteristicsRegistry + loadedCharacteristics;
      characteristicsTypeRegistry := characteristicsTypeRegistry + inverse;
    }
  }
}
