// Property types and schema descriptions: rpc/ultipa.proto and sdk/structs.
module Types {
  /** The protobuf property types, followed by the driver's own negative pseudo types. */
  datatype PropertyType =
    | UNSET | INT32 | UINT32 | INT64 | UINT64 | FLOAT | DOUBLE | STRING | DATETIME | TIMESTAMP
    | TEXT | BLOB | POINT | DECIMAL | LIST | SET | MAP | NULL_ | BOOL
    | ID | UUID | FROM | TO | FROM_UUID | TO_UUID | IGNORE

  datatype Property = Property(name: string, ptype: PropertyType, subTypes: seq<PropertyType>)
  {
    predicate IsIDType() {
      ptype in {ID, UUID, FROM, TO, FROM_UUID, TO_UUID}
    }

    predicate IsIgnore() {
      ptype == IGNORE
    }

    /** The properties whose values are sent to the server. */
    predicate Stored() {
      !IsIDType() && !IsIgnore()
    }
  }

  datatype Schema = Schema(name: string, properties: seq<Property>)

  /** The stored properties of a schema, in order. */
  function StoredProperties(ps: seq<Property>): (r: seq<Property>)
    ensures forall p :: p in r <==> p in ps && p.Stored()
  {
    if ps == [] then []
    else if ps[|ps| - 1].Stored() then StoredProperties(ps[..|ps| - 1]) + [ps[|ps| - 1]]
    else StoredProperties(ps[..|ps| - 1])
  }

  function Names(ps: seq<Property>): (r: seq<string>)
    ensures |r| == |ps|
    ensures forall i :: 0 <= i < |ps| ==> r[i] == ps[i].name
  {
    seq(|ps|, i requires 0 <= i < |ps| => ps[i].name)
  }
}
