/** The value part of a characteristic: its mutable list of fields. */
module Values {
  import opened Wrappers
  import opened Fields
  import opened Searches

  /** The first field that is a flags field, or none. */
  function FirstFlags(fields: seq<Field>): (r: Option<Field>)
    ensures r.None? <==> forall i :: 0 <= i < |fields| ==> !IsFlagField(fields[i])
    ensures r.Some? ==> exists i :: 0 <= i < |fields| && fields[i] == r.value && IsFlagField(r.value)
                          && forall j :: 0 <= j < i ==> !IsFlagField(fields[j])
  {
    FirstFrom(fields, IsFlagField, 0)
  }

  class Value {
    var fields: seq<Field>

    constructor(fields: seq<Field>)
      ensures this.fields == fields
    {
      this.fields := fields;
    }

    function GetFields(): (r: seq<Field>)
      reads this
      ensures r == fields
    {
      fields
    }

    method SetFields(l: seq<Field>)
      modifies this
      ensures fields == l
      ensures GetFields() == l
    {
      fields := l;
    }

    /** getFlags: the first field named "flags" (ignoring case) that has a bit field. */
    method GetFlags() returns (r: Option<Field>)
      ensures r == FirstFlags(fields)
    {
      for i := 0 to |fields|
        invariant FirstFlags(fields) == FirstFrom(fields, IsFlagField, i)
      {
        if IsFlagField(fields[i]) {
          return Some(fields[i]);
        }
      }
      return None;
    }
  }

}
