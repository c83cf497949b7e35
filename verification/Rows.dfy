// Rows against schemas: sdk/api/check.rows.go, the row conversion of sdk/api/insert.nodes.go and
// insert.edges.go, and the table decoders of sdk/http/dataitem.go. Values travel by position.
module Rows {
  import opened Base
  import opened Types
  import opened Codec

  type Values = map<string, GoValue>

  datatype Node = Node(id: string, uuid: Uint64, schema: string, values: Option<Values>)

  datatype Edge = Edge(uuid: Uint64, fromUuid: Uint64, toUuid: Uint64, from: string, to: string,
                       schema: string, values: Option<Values>)

  datatype EntityRow = EntityRow(uuid: Uint64, id: string, schemaName: string, fromUuid: Uint64, toUuid: Uint64,
                                 fromId: string, toId: string, values: seq<Bytes>, isNull: bool)

  datatype EntityTable = EntityTable(schemas: seq<Schema>, rows: seq<EntityRow>)

  datatype RowError =
    | NilRow | ValuesMissing | TooManyValues | TooFewValues | UnexpectedValues
    | MissingProperty(name: string) | NotSerialized(name: string)
    | NoEndpoints | OneEndpointId | OneEndpointUuid
    | SchemaNotFound(schema: string)
    | RowPanic



  // ---- checking ----

  function FirstMissing(ps: seq<Property>, values: Values): Option<RowError> {
    if ps == [] then None
    else if ps[0].name !in values then Some(MissingProperty(ps[0].name))
    else FirstMissing(ps[1..], values)
  }

  /** CheckValuesAndProperties, on the stored properties. */
  function CheckValues(stored: seq<Property>, values: Option<Values>): Option<RowError> {
    if values.None? then if stored == [] then None else Some(ValuesMissing)
    else if stored == [] then if |values.value| > 0 then Some(UnexpectedValues) else None
    else if |values.value| > |stored| then Some(TooManyValues)
    else if |values.value| < |stored| then Some(TooFewValues)
    else FirstMissing(stored, values.value)
  }

  method CheckValuesAndProperties(properties: seq<Property>, values: Option<Values>) returns (r: Option<RowError>)
    ensures r == CheckValues(StoredProperties(properties), values)
  {
    var props: seq<Property> := [];
    var i := 0;
    while i < |properties|
      invariant 0 <= i <= |properties|
      invariant props == StoredProperties(properties[..i])
    {
      var prop := properties[i];
      assert properties[..i + 1][..i] == properties[..i];
      if prop.Stored() {
        props := props + [prop];
      }
      i := i + 1;
    }
    assert properties[..i] == properties;
    if props != [] {
      if values.None? { return Some(ValuesMissing); }
      if |values.value| > |props| { return Some(TooManyValues); }
      if |values.value| < |props| { return Some(TooFewValues); }
      var k := 0;
      while k < |props|
        invariant 0 <= k <= |props|
        invariant FirstMissing(props, values.value) == FirstMissing(props[k..], values.value)
      {
        if props[k].name !in values.value { return Some(MissingProperty(props[k].name)); }
        k := k + 1;
      }
    } else if values.Some? && |values.value| > 0 {
      return Some(UnexpectedValues);
    }
    r := None;
  }

  predicate NonNull(id: string) {
    id != "" && id != "nil" && id != "null"
  }

  /** CheckEdgeRows. */
  method CheckEdgeRows(edge: Edge, properties: seq<Property>) returns (r: Option<RowError>)
    ensures r == CheckEdge(edge, StoredProperties(properties))
  {
    r := CheckValuesAndProperties(properties, edge.values);
    if r.Some? { return; }
    var hasFrom, hasTo := NonNull(edge.from), NonNull(edge.to);
    var hasFromUuid, hasToUuid := edge.fromUuid != 0, edge.toUuid != 0;
    if !hasFrom && !hasTo && !hasFromUuid && !hasToUuid { return Some(NoEndpoints); }
    if hasFrom && !hasTo { return Some(OneEndpointId); }
    if hasTo && !hasFrom { return Some(OneEndpointId); }
    if hasFromUuid && !hasToUuid { return Some(OneEndpointUuid); }
    if !hasFromUuid && hasToUuid { return Some(OneEndpointUuid); }
  }

  /** An edge is accepted when its endpoints come in pairs and at least one pair is there. */
  function CheckEdge(edge: Edge, stored: seq<Property>): Option<RowError> {
    var ids, uuids := Endpoints(NonNull(edge.from), NonNull(edge.to)), Endpoints(edge.fromUuid != 0, edge.toUuid != 0);
    match CheckValues(stored, edge.values)
    case Some(e) => Some(e)
    case None =>
      if ids == 0 && uuids == 0 then Some(NoEndpoints)
      else if ids == 1 then Some(OneEndpointId)
      else if uuids == 1 then Some(OneEndpointUuid)
      else None
  }

  function Endpoints(from: bool, to: bool): nat {
    (if from then 1 else 0) + if to then 1 else 0
  }

  // ---- conversion ----

  /** One column of a row. */
  function EncodeColumn(p: Property, values: Option<Values>, req: Request): Result<Bytes, RowError> {
    if values.None? then Err(RowPanic)
    else if p.name !in values.value then Err(MissingProperty(p.name))
    else
      match Encode(values.value[p.name], p.ptype, p.subTypes, req)
      case Err(_) => Err(NotSerialized(p.name))
      case Ok(bs) => Ok(bs)
  }

  /** The stored values of a row, in column order. */
  function EncodeValues(stored: seq<Property>, values: Option<Values>, req: Request): (r: Result<seq<Bytes>, RowError>)
    ensures r.Ok? ==> |r.value| == |stored|
  {
    if stored == [] then Ok([])
    else
      match EncodeValues(stored[..|stored| - 1], values, req)
      case Err(e) => Err(e)
      case Ok(front) =>
        match EncodeColumn(stored[|stored| - 1], values, req)
        case Err(e) => Err(e)
        case Ok(bs) => Ok(front + [bs])
  }

  lemma EncodeSnoc(stored: seq<Property>, p: Property, values: Option<Values>, req: Request)
    requires EncodeValues(stored, values, req).Ok?
    ensures EncodeValues(stored + [p], values, req)
         == match EncodeColumn(p, values, req)
            case Err(e) => Err(e)
            case Ok(bs) => Ok(EncodeValues(stored, values, req).value + [bs])
  {
    hide EncodeColumn;
    assert (stored + [p])[..|stored|] == stored;
  }

  lemma StoredStep(ps: seq<Property>, n: nat)
    requires n < |ps|
    ensures StoredProperties(ps[..n + 1])
         == if ps[n].Stored() then StoredProperties(ps[..n]) + [ps[n]] else StoredProperties(ps[..n])
  {
    assert ps[..n + 1][..n] == ps[..n];
  }

  method EncodeRow(properties: seq<Property>, values: Option<Values>, req: Request)
    returns (r: Result<seq<Bytes>, RowError>)
    ensures r == EncodeValues(StoredProperties(properties), values, req)
  {
    var out: seq<Bytes> := [];
    var i := 0;
    hide Encode;
    assert EncodeValues(StoredProperties(properties[..0]), values, req) == Ok([]);
    hide EncodeValues, StoredProperties;
    while i < |properties|
      invariant 0 <= i <= |properties|
      invariant EncodeValues(StoredProperties(properties[..i]), values, req) == Ok(out)
    {
      var prop := properties[i];
      StoredStep(properties, i);
      if prop.Stored() {
        EncodeSnoc(StoredProperties(properties[..i]), prop, values, req);
        if values.None? {
          EncodeValuesFails(properties, i + 1, values, req);
          return Err(RowPanic);
        }
        if prop.name !in values.value {
          EncodeValuesFails(properties, i + 1, values, req);
          return Err(MissingProperty(prop.name));
        }
        var bs := Encode(values.value[prop.name], prop.ptype, prop.subTypes, req);
        if bs.Err? {
          EncodeValuesFails(properties, i + 1, values, req);
          return Err(NotSerialized(prop.name));
        }
        out := out + [bs.value];
      }
      i := i + 1;
    }
    assert properties[..i] == properties;
    r := Ok(out);
  }

  /** The first column that fails decides the error. */
  lemma {:induction false} EncodeValuesFails(ps: seq<Property>, n: nat, values: Option<Values>, req: Request)
    requires n <= |ps|
    requires EncodeValues(StoredProperties(ps[..n]), values, req).Err?
    ensures EncodeValues(StoredProperties(ps), values, req) == EncodeValues(StoredProperties(ps[..n]), values, req)
    decreases |ps| - n
  {
    if n == |ps| {
      assert ps[..n] == ps;
    } else {
      var now, next := StoredProperties(ps[..n]), StoredProperties(ps[..n + 1]);
      StoredStep(ps, n);
      hide StoredProperties, EncodeColumn;
      assert next == now || next[..|now|] == now;
      EncodeValuesFails(ps, n + 1, values, req);
    }
  }

  /** The header a batch is sent with: the schema's stored properties. */
  function Header(schema: Schema): Schema {
    Schema(schema.name, StoredProperties(schema.properties))
  }

  method BuildHeader(schema: Schema) returns (header: Schema)
    ensures header == Header(schema)
  {
    header := Schema(schema.name, []);
    for i := 0 to |schema.properties|
      invariant header == Schema(schema.name, StoredProperties(schema.properties[..i]))
    {
      var prop := schema.properties[i];
      assert schema.properties[..i + 1][..i] == schema.properties[..i];
      if prop.IsIDType() || prop.IsIgnore() {
        continue;
      }
      header := header.(properties := header.properties + [prop]);
    }
    assert schema.properties[..|schema.properties|] == schema.properties;
  }

  function NodeHead(schema: Schema, node: Node, values: seq<Bytes>): EntityRow {
    EntityRow(node.uuid, node.id, schema.name, 0, 0, "", "", values, false)
  }

  function EdgeHead(schema: Schema, edge: Edge, values: seq<Bytes>): EntityRow {
    EntityRow(edge.uuid, "", schema.name, edge.fromUuid, edge.toUuid, edge.from, edge.to, values, false)
  }

  /** convertSdkNodeRowToUltipaNodeRow: check, then convert. */
  function ConvertNode(schema: Schema, node: Node, req: Request): Result<EntityRow, RowError>
  {
    var stored := StoredProperties(schema.properties);
    match CheckValues(stored, node.values)
    case Some(e) => Err(e)
    case None =>
      match EncodeValues(stored, node.values, req)
      case Err(e) => Err(e)
      case Ok(values) => Ok(NodeHead(schema, node, values))
  }

  function ConvertEdge(schema: Schema, edge: Edge, req: Request): Result<EntityRow, RowError>
  {
    var stored := StoredProperties(schema.properties);
    match CheckEdge(edge, stored)
    case Some(e) => Err(e)
    case None =>
      match EncodeValues(stored, edge.values, req)
      case Err(e) => Err(e)
      case Ok(values) => Ok(EdgeHead(schema, edge, values))
  }

  method ConvertSdkNodeRow(schema: Schema, node: Node, req: Request) returns (r: Result<EntityRow, RowError>)
    ensures r == ConvertNode(schema, node, req)
  {
    var failed := CheckValuesAndProperties(schema.properties, node.values);
    if failed.Some? { return Err(failed.value); }
    var values := EncodeRow(schema.properties, node.values, req);
    if values.Err? { return Err(values.error); }
    r := Ok(NodeHead(schema, node, values.value));
  }

  method ConvertSdkEdgeRow(schema: Schema, edge: Edge, req: Request) returns (r: Result<EntityRow, RowError>)
    ensures r == ConvertEdge(schema, edge, req)
  {
    var failed := CheckEdgeRows(edge, schema.properties);
    if failed.Some? { return Err(failed.value); }
    var values := EncodeRow(schema.properties, edge.values, req);
    if values.Err? { return Err(values.error); }
    r := Ok(EdgeHead(schema, edge, values.value));
  }

  // ---- decoding ----

  /** The last schema of a name wins. */
  function SchemaMap(schemas: seq<Schema>): (m: map<string, Schema>)
    ensures forall n :: n in m ==> m[n] in schemas && m[n].name == n
    ensures forall s :: s in schemas ==> s.name in m
  {
    if schemas == [] then map[]
    else SchemaMap(schemas[..|schemas| - 1])[schemas[|schemas| - 1].name := schemas[|schemas| - 1]]
  }


  function DecodeValues(ps: seq<Property>, values: seq<Bytes>): Result<Values, CodecError>
  {
    if values == [] then Ok(map[])
    else
      match DecodeValues(ps, values[..|values| - 1])
      case Err(e) => Err(e)
      case Ok(m) =>
        var index := |values| - 1;
        if index >= |ps| then Err(Panic)
        else
          match Decode(values[index], ps[index].ptype, ps[index].subTypes)
          case Err(e) => Err(e)
          case Ok(v) => Ok(m[ps[index].name := v])
  }

  function NodeOf(row: EntityRow, values: Values): Node {
    Node(row.id, row.uuid, row.schemaName, Some(values))
  }

  function EdgeOf(row: EntityRow, values: Values): Edge {
    Edge(row.uuid, row.fromUuid, row.toUuid, row.fromId, row.toId, row.schemaName, Some(values))
  }

  /** A row of an unknown schema is only readable when it has no values. */
  function DecodeRow<T>(schemas: seq<Schema>, row: EntityRow, make: (EntityRow, Values) -> T): Result<T, CodecError>
  {
    var m := SchemaMap(schemas);
    if row.schemaName !in m then if row.values == [] then Ok(make(row, map[])) else Err(Panic)
    else
      match DecodeValues(m[row.schemaName].properties, row.values)
      case Err(e) => Err(e)
      case Ok(values) => Ok(make(row, values))
  }

  /** NodeTableToNodes and EdgeTableToEdges: null rows are skipped, the first failure is returned. */
  function DecodeRows<T>(schemas: seq<Schema>, rows: seq<EntityRow>,
          make: (EntityRow, Values) -> T): Result<seq<T>, CodecError>
  {
    if rows == [] then Ok([])
    else
      match DecodeRows(schemas, rows[..|rows| - 1], make)
      case Err(e) => Err(e)
      case Ok(front) =>
        if rows[|rows| - 1].isNull then Ok(front)
        else
          match DecodeRow(schemas, rows[|rows| - 1], make)
          case Err(e) => Err(e)
          case Ok(t) => Ok(front + [t])
  }

  /** The loop of NodeTableToNodes and EdgeTableToEdges over one row's values. */
  method ReadRowValues(schema: Option<Schema>, values: seq<Bytes>) returns (r: Result<Values, CodecError>)
    ensures schema.Some? ==> r == DecodeValues(schema.value.properties, values)
    ensures schema.None? ==> r == if values == [] then Ok(map[]) else Err(Panic)
  {
    hide Decode;
    var m: Values := map[];
    var index := 0;
    while index < |values|
      invariant 0 <= index <= |values|
      invariant schema.Some? ==> DecodeValues(schema.value.properties, values[..index]) == Ok(m)
      invariant schema.None? ==> index == 0 && m == map[]
    {
      if schema.None? { return Err(Panic); }
      ghost var ps := schema.value.properties;
      assert values[..index + 1][..index] == values[..index];
      if index >= |schema.value.properties| {
        DecodeValuesFails(ps, values, index + 1);
        return Err(Panic);
      }
      var prop := schema.value.properties[index];
      var v := Decode(values[index], prop.ptype, prop.subTypes);
      if v.Err? {
        DecodeValuesFails(ps, values, index + 1);
        return Err(v.error);
      }
      m := m[prop.name := v.value];
      index := index + 1;
    }
    assert values[..index] == values;
    r := Ok(m);
  }

  lemma {:induction false} DecodeValuesFails(ps: seq<Property>, values: seq<Bytes>, n: nat)
    requires n <= |values| && DecodeValues(ps, values[..n]).Err?
    ensures DecodeValues(ps, values) == DecodeValues(ps, values[..n])
    decreases |values| - n
  {
    if n == |values| {
      assert values[..n] == values;
    } else {
      assert values[..n + 1][..n] == values[..n];
      DecodeValuesFails(ps, values, n + 1);
    }
  }

  method ReadSchemas(schemas: seq<Schema>) returns (m: map<string, Schema>)
    ensures m == SchemaMap(schemas)
  {
    m := map[];
    for s := 0 to |schemas|
      invariant m == SchemaMap(schemas[..s])
    {
      assert schemas[..s + 1][..s] == schemas[..s];
      m := m[schemas[s].name := schemas[s]];
    }
    assert schemas[..|schemas|] == schemas;
  }

  /** The shared loop of NodeTableToNodes and EdgeTableToEdges; `uuid` keys the second result. */
  method TableToEntities<T>(table: EntityTable, make: (EntityRow, Values) -> T, uuid: T -> Uint64)
    returns (entities: Result<seq<T>, CodecError>, byUuid: map<Uint64, T>)
    ensures entities == DecodeRows(table.schemas, table.rows, make)
    ensures entities.Ok? ==> byUuid == LastByUuid(entities.value, uuid)
  {
    hide DecodeRows, DecodeRow, LastByUuid;
    var schemas := ReadSchemas(table.schemas);
    var list: seq<T> := [];
    byUuid := map[];
    NothingDecoded(table.schemas, make, uuid);
    for i := 0 to |table.rows|
      invariant DecodeRows(table.schemas, table.rows[..i], make) == Ok(list)
      invariant byUuid == LastByUuid(list, uuid)
    {
      DecodeRowsStep(table.schemas, table.rows, i, make);
      if table.rows[i].isNull {
        continue;
      }
      var entity := ReadRow(schemas, table.rows[i], make, table.schemas);
      if entity.Err? {
        DecodeRowsFails(table.schemas, table.rows, i + 1, make);
        return Err(entity.error), byUuid;
      }
      LastByUuidStep(list, entity.value, uuid);
      list := list + [entity.value];
      byUuid := byUuid[uuid(entity.value) := entity.value];
    }
    assert table.rows[..|table.rows|] == table.rows;
    entities := Ok(list);
  }

  method ReadRow<T>(schemas: map<string, Schema>, row: EntityRow,
          make: (EntityRow, Values) -> T, ghost from: seq<Schema>)
    returns (r: Result<T, CodecError>)
    requires schemas == SchemaMap(from)
    ensures r == DecodeRow(from, row, make)
  {
    hide DecodeValues;
    var schema := if row.schemaName in schemas then Some(schemas[row.schemaName]) else None;
    var values := ReadRowValues(schema, row.values);
    r := match values case Err(e) => Err(e) case Ok(m) => Ok(make(row, m));
  }

  lemma NothingDecoded<T>(schemas: seq<Schema>, make: (EntityRow, Values) -> T, uuid: T -> Uint64)
    ensures DecodeRows(schemas, [], make) == Ok([]) && LastByUuid([], uuid) == map[]
  {
  }

  lemma DecodeRowsStep<T>(schemas: seq<Schema>, rows: seq<EntityRow>, i: nat, make: (EntityRow, Values) -> T)
    requires i < |rows| && DecodeRows(schemas, rows[..i], make).Ok?
    ensures var front := DecodeRows(schemas, rows[..i], make).value;
      DecodeRows(schemas, rows[..i + 1], make)
      == if rows[i].isNull then Ok(front)
         else match DecodeRow(schemas, rows[i], make) case Err(e) => Err(e) case Ok(t) => Ok(front + [t])
  {
    hide DecodeRow;
    assert rows[..i + 1][..i] == rows[..i];
  }

  lemma LastByUuidStep<T>(entities: seq<T>, last: T, uuid: T -> Uint64)
    ensures LastByUuid(entities + [last], uuid) == LastByUuid(entities, uuid)[uuid(last) := last]
  {
    assert (entities + [last])[..|entities|] == entities;
  }

  lemma {:induction false} DecodeRowsFails<T>(schemas: seq<Schema>, rows: seq<EntityRow>, n: nat,
          make: (EntityRow, Values) -> T)
    requires n <= |rows| && DecodeRows(schemas, rows[..n], make).Err?
    ensures DecodeRows(schemas, rows, make) == DecodeRows(schemas, rows[..n], make)
    decreases |rows| - n
  {
    if n == |rows| {
      assert rows[..n] == rows;
    } else {
      assert rows[..n + 1][..n] == rows[..n];
      DecodeRowsFails(schemas, rows, n + 1, make);
    }
  }

  function LastByUuid<T>(entities: seq<T>, uuid: T -> Uint64): map<Uint64, T> {
    if entities == [] then map[]
    else
      var last := entities[|entities| - 1];
      LastByUuid(entities[..|entities| - 1], uuid)[uuid(last) := last]
  }

  /** NodeTableToUUIDs. */
  method NodeTableToUUIDs(rows: seq<EntityRow>) returns (uuids: seq<Uint64>)
    ensures uuids == LiveUuids(rows)
  {
    uuids := [];
    for i := 0 to |rows|
      invariant uuids == LiveUuids(rows[..i])
    {
      assert rows[..i + 1][..i] == rows[..i];
      if rows[i].isNull {
        continue;
      }
      uuids := uuids + [rows[i].uuid];
    }
    assert rows[..|rows|] == rows;
  }

  function LiveUuids(rows: seq<EntityRow>): seq<Uint64> {
    if rows == [] then []
    else if rows[|rows| - 1].isNull then LiveUuids(rows[..|rows| - 1])
    else LiveUuids(rows[..|rows| - 1]) + [rows[|rows| - 1].uuid]
  }
}
