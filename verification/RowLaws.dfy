// What checking, converting and decoding rows add up to.
module RowLaws {
  import opened Base
  import opened Types
  import opened Codec
  import opened CodecLaws
  import opened Rows

  // ---- checking ----

  lemma {:induction false} NothingMissing(ps: seq<Property>, values: Values)
    ensures FirstMissing(ps, values).None? <==> forall p :: p in ps ==> p.name in values
  {
    if ps != [] {
      NothingMissing(ps[1..], values);
      assert ps == [ps[0]] + ps[1..];
    }
  }

  /** With distinct names, the check accepts exactly the rows whose keys are the stored names. */
  lemma CheckAcceptsExactly(stored: seq<Property>, values: Values)
    requires Distinct(Names(stored))
    ensures CheckValues(stored, Some(values)).None? <==> values.Keys == Elements(Names(stored))
  {
    var names := Names(stored);
    DistinctSize(names);
    NothingMissing(stored, values);
    assert |values| == |values.Keys|;
    assert stored == [] ==> names == [];
    forall n | n in Elements(names) ensures exists p :: p in stored && p.name == n {
      var i :| 0 <= i < |names| && names[i] == n;
      assert stored[i] in stored;
    }
    assert forall p :: p in stored ==> p.name in Elements(names) by {
      forall p | p in stored ensures p.name in Elements(names) {
        var i :| 0 <= i < |stored| && stored[i] == p;
        assert names[i] == p.name;
      }
    }
    if CheckValues(stored, Some(values)).None? {
      assert Elements(names) <= values.Keys;
      SubsetOfSameSize(Elements(names), values.Keys);
    }
  }

  /** Edges need their endpoints in pairs, by id or by uuid. */
  lemma EdgeAcceptedExactly(edge: Edge, stored: seq<Property>)
    ensures CheckEdge(edge, stored).None?
       <==> && CheckValues(stored, edge.values).None?
            && (edge.from in ["", "nil", "null"] <==> edge.to in ["", "nil", "null"])
            && (edge.fromUuid == 0 <==> edge.toUuid == 0)
            && (edge.from !in ["", "nil", "null"] || edge.fromUuid != 0)
  {
  }

  // ---- converting ----

  ghost predicate Encodes(p: Property, values: Values, req: Request)
    requires p.name in values
  {
    Encode(values[p.name], p.ptype, p.subTypes, req).Ok?
  }

  /** A checked row converts unless one of its values has no encoding: nothing is ever missing. */
  lemma {:induction false} CheckedRowsConvert(stored: seq<Property>, values: Values, req: Request)
    requires forall p :: p in stored ==> p.name in values
    ensures EncodeValues(stored, Some(values), req).Ok? <==> forall p :: p in stored ==> Encodes(p, values, req)
    ensures EncodeValues(stored, Some(values), req).Err? ==>
      exists p :: p in stored && !Encodes(p, values, req)
        && EncodeValues(stored, Some(values), req).error == NotSerialized(p.name)
  {
    if stored != [] {
      var front, last := stored[..|stored| - 1], stored[|stored| - 1];
      CheckedRowsConvert(front, values, req);
      assert stored == front + [last];
      if EncodeValues(front, Some(values), req).Err? {
        var p :| p in front && !Encodes(p, values, req)
          && EncodeValues(front, Some(values), req).error == NotSerialized(p.name);
        assert p in stored;
      } else {
        assert last in stored;
        assert forall p :: p in stored ==> p in front || p == last;
      }
    }
  }

  /** The check keeps conversion from ever reporting a missing property. */
  lemma NothingIsMissingAfterTheCheck(schema: Schema, node: Node, req: Request)
    requires CheckValues(StoredProperties(schema.properties), node.values).None?
    ensures ConvertNode(schema, node, req).Err? ==>
      exists p :: p in schema.properties && ConvertNode(schema, node, req).error == NotSerialized(p.name)
  {
    var stored := StoredProperties(schema.properties);
    if node.values.Some? {
      NothingMissing(stored, node.values.value);
      CheckedRowsConvert(stored, node.values.value, req);
    }
  }

  // ---- there and back ----

  predicate ValuesTyped(stored: seq<Property>, values: Values) {
    forall p :: p in stored ==> p.name in values && WellTyped(values[p.name], p.ptype, p.subTypes)
                                && InMemory(values[p.name])
  }

  /** What the values of a row become on the way through the server's bytes. */
  function NormalValues(stored: seq<Property>, values: Values): Values
    requires ValuesTyped(stored, values)
  {
    if stored == [] then map[]
    else
      var p := stored[|stored| - 1];
      NormalValues(stored[..|stored| - 1], values)[p.name := Normal(values[p.name], p.ptype, p.subTypes)]
  }

  /** With distinct names: exactly the stored names, each holding the normal form of its own value. */
  lemma {:induction false} NormalValuesMeaning(stored: seq<Property>, values: Values)
    requires ValuesTyped(stored, values) && Distinct(Names(stored))
    ensures NormalValues(stored, values).Keys == Elements(Names(stored))
    ensures forall p :: p in stored ==>
      NormalValues(stored, values)[p.name] == Normal(values[p.name], p.ptype, p.subTypes)
  {
    hide WellTyped, Normal, InMemory;
    if stored == [] {
      assert Elements(Names(stored)) == {};
    } else {
      var front, last := stored[..|stored| - 1], stored[|stored| - 1];
      DistinctFront(stored);
      hide Distinct, Elements, Names;
      NormalValuesMeaning(front, values);
      var normal := NormalValues(front, values);
      assert NormalValues(stored, values) == normal[last.name := Normal(values[last.name], last.ptype, last.subTypes)];
      hide NormalValues;
      assert stored == front + [last];
    }
  }

  lemma DistinctFront(ps: seq<Property>)
    requires ps != [] && Distinct(Names(ps))
    ensures var front, last := ps[..|ps| - 1], ps[|ps| - 1];
      && Distinct(Names(front))
      && Elements(Names(ps)) == Elements(Names(front)) + {last.name}
      && forall p :: p in front ==> p.name != last.name
  {
    var front, last := ps[..|ps| - 1], ps[|ps| - 1];
    var names := Names(ps);
    assert names == Names(front) + [last.name];
    forall i, j | 0 <= i < j < |front| ensures Names(front)[i] != Names(front)[j] {
      assert names[i] != names[j];
    }
    forall p | p in front ensures p.name != last.name {
      var i :| 0 <= i < |front| && front[i] == p;
      assert names[i] != names[|front|];
    }
  }

  lemma {:induction false} ValuesRoundTrip(stored: seq<Property>, n: nat, values: Values, req: Request)
    requires n <= |stored| && ValuesTyped(stored, values)
    ensures EncodeValues(stored[..n], Some(values), req).Ok?
    ensures DecodeValues(stored, EncodeValues(stored[..n], Some(values), req).value)
         == Ok(NormalValues(stored[..n], values))
  {
    hide Encode, Decode, Normal;
    if n > 0 {
      var p := stored[n - 1];
      assert stored[..n][..n - 1] == stored[..n - 1];
      ValuesRoundTrip(stored, n - 1, values, req);
      RoundTrip(values[p.name], p.ptype, p.subTypes, req);
      var bytes := EncodeValues(stored[..n], Some(values), req).value;
      assert bytes[..n - 1] == EncodeValues(stored[..n - 1], Some(values), req).value;
    }
  }

  predicate Sendable(schema: Schema, values: Option<Values>) {
    var stored := StoredProperties(schema.properties);
    CheckValues(stored, values).None? && (values.Some? ==> ValuesTyped(stored, values.value))
  }

  function SentValues(schema: Schema, values: Option<Values>): Values
    requires Sendable(schema, values)
  {
    if values.None? then map[] else NormalValues(StoredProperties(schema.properties), values.value)
  }

  lemma SentValuesRoundTrip(schema: Schema, values: Option<Values>, req: Request)
    requires Sendable(schema, values)
    ensures var stored := StoredProperties(schema.properties);
      && EncodeValues(stored, values, req).Ok?
      && DecodeValues(stored, EncodeValues(stored, values, req).value) == Ok(SentValues(schema, values))
  {
    var stored := StoredProperties(schema.properties);
    if values.Some? {
      ValuesRoundTrip(stored, |stored|, values.value, req);
      assert stored[..|stored|] == stored;
    }
  }

  lemma HeaderSchema(schema: Schema)
    ensures SchemaMap([Header(schema)]) == map[schema.name := Header(schema)]
  {
  }

  /** What the server holds of a node or an edge sent under a schema. */
  function SentNode(schema: Schema, node: Node): Node
    requires Sendable(schema, node.values)
  {
    Node(node.id, node.uuid, schema.name, Some(SentValues(schema, node.values)))
  }

  function SentEdge(schema: Schema, edge: Edge): Edge
    requires Sendable(schema, edge.values)
  {
    Edge(edge.uuid, edge.fromUuid, edge.toUuid, edge.from, edge.to, schema.name, Some(SentValues(schema, edge.values)))
  }

  predicate SendableEdge(schema: Schema, edge: Edge) {
    Sendable(schema, edge.values) && CheckEdge(edge, StoredProperties(schema.properties)).None?
  }

  /** A sendable node comes back under the batch's own header with the same identity and the normal
      form of its values. */
  lemma NodeRoundTrip(schema: Schema, node: Node, req: Request)
    requires Sendable(schema, node.values)
    ensures ConvertNode(schema, node, req).Ok?
    ensures !ConvertNode(schema, node, req).value.isNull
    ensures DecodeRow([Header(schema)], ConvertNode(schema, node, req).value, NodeOf) == Ok(SentNode(schema, node))
  {
    hide EncodeValues, DecodeValues;
    SentValuesRoundTrip(schema, node.values, req);
    HeaderSchema(schema);
  }

  lemma EdgeRoundTrip(schema: Schema, edge: Edge, req: Request)
    requires SendableEdge(schema, edge)
    ensures ConvertEdge(schema, edge, req).Ok?
    ensures !ConvertEdge(schema, edge, req).value.isNull
    ensures DecodeRow([Header(schema)], ConvertEdge(schema, edge, req).value, EdgeOf) == Ok(SentEdge(schema, edge))
  {
    hide EncodeValues, DecodeValues;
    SentValuesRoundTrip(schema, edge.values, req);
    HeaderSchema(schema);
  }

  /** A table decodes to what its rows decode to, when none of them is null. */
  lemma {:induction false} TableOf<T>(header: Schema, rows: seq<EntityRow>, sent: seq<T>,
                                      make: (EntityRow, Values) -> T)
    requires |rows| == |sent|
    requires forall i :: 0 <= i < |rows| ==> !rows[i].isNull && DecodeRow([header], rows[i], make) == Ok(sent[i])
    ensures DecodeRows([header], rows, make) == Ok(sent)
    decreases |rows|
  {
    hide DecodeRow;
    if rows != [] {
      var n := |rows| - 1;
      TableOf(header, rows[..n], sent[..n], make);
      assert sent == sent[..n] + [sent[n]];
    }
  }

  /** A whole batch: every checked, well-typed row is converted, and the table decodes to all of them. */
  lemma BatchRoundTrip(schema: Schema, nodes: seq<Node>, rows: seq<EntityRow>, sent: seq<Node>, req: Request)
    requires |rows| == |nodes| == |sent|
    requires forall i :: 0 <= i < |nodes| ==> Sendable(schema, nodes[i].values) && sent[i] == SentNode(schema, nodes[i])
    requires forall i :: 0 <= i < |nodes| ==> ConvertNode(schema, nodes[i], req) == Ok(rows[i])
    ensures DecodeRows([Header(schema)], rows, NodeOf) == Ok(sent)
  {
    hide ConvertNode, DecodeRow, DecodeRows, Sendable, SentValues;
    HeaderSchema(schema);
    forall i | 0 <= i < |rows| ensures !rows[i].isNull && DecodeRow([Header(schema)], rows[i], NodeOf) == Ok(sent[i]) {
      NodeRoundTrip(schema, nodes[i], req);
    }
    TableOf(Header(schema), rows, sent, NodeOf);
  }

  lemma EdgeBatchRoundTrip(schema: Schema, edges: seq<Edge>, rows: seq<EntityRow>, sent: seq<Edge>, req: Request)
    requires |rows| == |edges| == |sent|
    requires forall i :: 0 <= i < |edges| ==> SendableEdge(schema, edges[i]) && sent[i] == SentEdge(schema, edges[i])
    requires forall i :: 0 <= i < |edges| ==> ConvertEdge(schema, edges[i], req) == Ok(rows[i])
    ensures DecodeRows([Header(schema)], rows, EdgeOf) == Ok(sent)
  {
    hide ConvertEdge, DecodeRow, DecodeRows, Sendable, SentValues, CheckEdge;
    HeaderSchema(schema);
    forall i | 0 <= i < |rows| ensures !rows[i].isNull && DecodeRow([Header(schema)], rows[i], EdgeOf) == Ok(sent[i]) {
      EdgeRoundTrip(schema, edges[i], req);
    }
    TableOf(Header(schema), rows, sent, EdgeOf);
  }

  // ---- uuids ----

  /** NodeTableToUUIDs lists the uuids of the decoded nodes, in order. */
  lemma {:induction false} UuidsOfDecoded(schemas: seq<Schema>, rows: seq<EntityRow>)
    requires DecodeRows(schemas, rows, NodeOf).Ok?
    ensures var nodes := DecodeRows(schemas, rows, NodeOf).value;
      |LiveUuids(rows)| == |nodes| && forall i :: 0 <= i < |nodes| ==> LiveUuids(rows)[i] == nodes[i].uuid
  {
    if rows != [] {
      UuidsOfDecoded(schemas, rows[..|rows| - 1]);
    }
  }

  // ---- columns that are not sent ----

  lemma {:induction false} StoredJoin(ps: seq<Property>, qs: seq<Property>)
    ensures StoredProperties(ps + qs) == StoredProperties(ps) + StoredProperties(qs)
    decreases |qs|
  {
    if qs == [] {
      assert ps + qs == ps;
    } else {
      assert (ps + qs)[..|ps + qs| - 1] == ps + qs[..|qs| - 1];
      StoredJoin(ps, qs[..|qs| - 1]);
    }
  }

  /** A column of one of the driver's own seven types is skipped wherever it stands; every other column is
      kept at its place. */
  lemma OnlyPseudoColumnsAreSkipped(ps: seq<Property>, p: Property, qs: seq<Property>)
    ensures StoredProperties(ps + [p] + qs)
         == StoredProperties(ps)
            + (if p.ptype in {ID, UUID, FROM, TO, FROM_UUID, TO_UUID, IGNORE} then [] else [p])
            + StoredProperties(qs)
  {
    StoredJoin(ps + [p], qs);
    StoredJoin(ps, [p]);
    assert [p][..0] == [] && StoredProperties([]) == [];
    assert StoredProperties([p]) == if p.ptype in {ID, UUID, FROM, TO, FROM_UUID, TO_UUID, IGNORE} then [] else [p];
  }

  /** So it changes neither the check nor the converted row nor the header. */
  lemma PseudoColumnsChangeNothing(name: string, ps: seq<Property>, p: Property, qs: seq<Property>,
                                   node: Node, edge: Edge, req: Request)
    requires p.ptype in {ID, UUID, FROM, TO, FROM_UUID, TO_UUID, IGNORE}
    ensures var wide, narrow := Schema(name, ps + [p] + qs), Schema(name, ps + qs);
      && Header(wide) == Header(narrow)
      && CheckValues(StoredProperties(wide.properties), node.values)
         == CheckValues(StoredProperties(narrow.properties), node.values)
      && CheckEdge(edge, StoredProperties(wide.properties)) == CheckEdge(edge, StoredProperties(narrow.properties))
      && ConvertNode(wide, node, req) == ConvertNode(narrow, node, req)
      && ConvertEdge(wide, edge, req) == ConvertEdge(narrow, edge, req)
  {
    hide StoredProperties, Header, CheckValues, CheckEdge, ConvertNode, ConvertEdge;
    OnlyPseudoColumnsAreSkipped(ps, p, qs);
    StoredJoin(ps, qs);
    assert StoredProperties(ps) + [] + StoredProperties(qs) == StoredProperties(ps) + StoredProperties(qs);
    OnlyStoredColumnsCount(Schema(name, ps + [p] + qs), Schema(name, ps + qs), node, edge, req);
  }

  lemma OnlyStoredColumnsCount(one: Schema, other: Schema, node: Node, edge: Edge, req: Request)
    requires one.name == other.name && StoredProperties(one.properties) == StoredProperties(other.properties)
    ensures Header(one) == Header(other)
    ensures ConvertNode(one, node, req) == ConvertNode(other, node, req)
    ensures ConvertEdge(one, edge, req) == ConvertEdge(other, edge, req)
  {
    hide StoredProperties, CheckValues, CheckEdge, EncodeValues;
  }

  // ---- why a row is refused ----

  /** Which error a row gets, in the order of the source: the numbers of keys first, then the first stored
      name that is no key. */
  lemma RefusalExactly(stored: seq<Property>, values: Values)
    ensures CheckValues(stored, None) == if stored == [] then None else Some(ValuesMissing)
    ensures var r := CheckValues(stored, Some(values));
      && (r == Some(UnexpectedValues) <==> |stored| == 0 < |values|)
      && (r == Some(TooManyValues) <==> 0 < |stored| < |values|)
      && (r == Some(TooFewValues) <==> |values| < |stored|)
      && (forall name :: r == Some(MissingProperty(name)) <==>
            |values| == |stored| && FirstGap(stored, values, name))
  {
    FirstMissingExactly(stored, values);
  }

  /** `name` is the first stored name that is no key. */
  ghost predicate FirstGap(stored: seq<Property>, values: Values, name: string) {
    exists i :: 0 <= i < |stored| && stored[i].name == name && name !in values
      && forall j :: 0 <= j < i ==> stored[j].name in values
  }

  lemma {:induction false} FirstMissingExactly(stored: seq<Property>, values: Values)
    ensures FirstMissing(stored, values).Some? ==> FirstMissing(stored, values).value.MissingProperty?
    ensures forall name ::
      FirstMissing(stored, values) == Some(MissingProperty(name)) <==> FirstGap(stored, values, name)
  {
    if stored != [] {
      var rest := stored[1..];
      FirstMissingExactly(rest, values);
      forall name
        ensures FirstMissing(stored, values) == Some(MissingProperty(name)) <==> FirstGap(stored, values, name)
      {
        FirstGapStep(stored, values, name);
      }
    }
  }

  lemma FirstGapStep(stored: seq<Property>, values: Values, name: string)
    requires stored != []
    ensures FirstGap(stored, values, name) <==>
      if stored[0].name !in values then stored[0].name == name else FirstGap(stored[1..], values, name)
  {
    var rest := stored[1..];
    assert forall i :: 0 <= i < |rest| ==> rest[i] == stored[i + 1];
    if stored[0].name in values {
      if FirstGap(rest, values, name) {
        var i :| 0 <= i < |rest| && rest[i].name == name && name !in values
          && forall j :: 0 <= j < i ==> rest[j].name in values;
        assert stored[i + 1].name == name && forall j :: 0 <= j < i + 1 ==> stored[j].name in values;
      }
      if FirstGap(stored, values, name) {
        var i :| 0 <= i < |stored| && stored[i].name == name && name !in values
          && forall j :: 0 <= j < i ==> stored[j].name in values;
        assert rest[i - 1].name == name && forall j :: 0 <= j < i - 1 ==> rest[j].name in values;
      }
    }
  }

  /** Which error an edge gets once its values are accepted: an endpoint counts unless its id is empty, "nil" or
      "null", or its uuid 0. */
  lemma EdgeRefusalExactly(edge: Edge, stored: seq<Property>)
    requires CheckValues(stored, edge.values).None?
    ensures var from, to := edge.from !in ["", "nil", "null"], edge.to !in ["", "nil", "null"];
      var fromUuid, toUuid := edge.fromUuid != 0, edge.toUuid != 0;
      var r := CheckEdge(edge, stored);
      && (r == Some(NoEndpoints) <==> !from && !to && !fromUuid && !toUuid)
      && (r == Some(OneEndpointId) <==> from != to)
      && (r == Some(OneEndpointUuid) <==> from == to && fromUuid != toUuid)
      && (r.None? <==> from == to && fromUuid == toUuid && (from || fromUuid))
  {
  }

  // ---- rows and tables of any shape ----

  /** What a converted row carries beside its columns: a node's has no endpoints and an edge's has no id. */
  lemma RowsCarryIdentity(schema: Schema, node: Node, edge: Edge, req: Request)
    ensures ConvertNode(schema, node, req).Ok? ==> var row := ConvertNode(schema, node, req).value;
      && row.id == node.id && row.uuid == node.uuid && row.schemaName == schema.name && !row.isNull
      && row.fromId == row.toId == "" && row.fromUuid == row.toUuid == 0
      && |row.values| == |StoredProperties(schema.properties)|
    ensures ConvertEdge(schema, edge, req).Ok? ==> var row := ConvertEdge(schema, edge, req).value;
      && row.id == "" && row.uuid == edge.uuid && row.schemaName == schema.name && !row.isNull
      && row.fromId == edge.from && row.toId == edge.to
      && row.fromUuid == edge.fromUuid && row.toUuid == edge.toUuid
      && |row.values| == |StoredProperties(schema.properties)|
  {
    hide CheckValues, CheckEdge, StoredProperties, EncodeValues;
  }

  /** Column `i` of a row, read under the header. */
  function Column(ps: seq<Property>, values: seq<Bytes>, i: nat): Result<GoValue, CodecError>
    requires i < |values|
  {
    if i < |ps| then Decode(values[i], ps[i].ptype, ps[i].subTypes) else Err(Panic)
  }

  lemma ColumnStep(ps: seq<Property>, values: seq<Bytes>)
    requires values != []
    ensures var n := |values| - 1;
      DecodeValues(ps, values) == match DecodeValues(ps, values[..n])
                                  case Err(e) => Err(e)
                                  case Ok(m) => (match Column(ps, values, n)
                                                 case Err(e) => Err(e)
                                                 case Ok(v) => Ok(m[ps[n].name := v]))
  {
    hide Decode;
  }

  lemma SameColumns(ps: seq<Property>, values: seq<Bytes>, n: nat)
    requires n <= |values|
    ensures forall i :: 0 <= i < n ==> Column(ps, values[..n], i) == Column(ps, values, i)
  {
    hide Decode;
  }

  /** Every column can be read. */
  ghost predicate AllRead(ps: seq<Property>, values: seq<Bytes>) {
    forall i :: 0 <= i < |values| ==> Column(ps, values, i).Ok?
  }

  lemma {:induction false} DecodesExactly(ps: seq<Property>, values: seq<Bytes>)
    ensures DecodeValues(ps, values).Ok? <==> AllRead(ps, values)
    ensures AllRead(ps, values) ==> |values| <= |ps|
  {
    if values != [] {
      var n := |values| - 1;
      DecodesExactly(ps, values[..n]);
      ColumnStep(ps, values);
      SameColumns(ps, values, n);
      assert Column(ps, values, n).Ok? ==> n < |ps|;
      hide DecodeValues, Column;
      assert AllRead(ps, values) <==> AllRead(ps, values[..n]) && Column(ps, values, n).Ok?;
    }
  }

  /** One of the first `n` columns has this name. */
  ghost predicate HasColumn(ps: seq<Property>, n: nat, name: string)
    requires n <= |ps|
  {
    exists i :: 0 <= i < n && ps[i].name == name
  }

  /** Column `i` is the last of its name among the first `n`. */
  ghost predicate LastColumn(ps: seq<Property>, n: nat, i: nat)
    requires i < n <= |ps|
  {
    forall j :: i < j < n ==> ps[j].name != ps[i].name
  }

  lemma HasColumnStep(ps: seq<Property>, n: nat, name: string)
    requires n < |ps|
    ensures HasColumn(ps, n + 1, name) <==> HasColumn(ps, n, name) || ps[n].name == name
  {
  }

  lemma LastColumnStep(ps: seq<Property>, n: nat, i: nat)
    requires i < n < |ps|
    ensures LastColumn(ps, n + 1, i) <==> LastColumn(ps, n, i) && ps[n].name != ps[i].name
  {
  }

  /** Exactly the names of the columns are keys, each with the value of its last column. */
  lemma {:induction false} DecodedColumns(ps: seq<Property>, values: seq<Bytes>, name: string, i: nat)
    requires DecodeValues(ps, values).Ok?
    ensures |values| <= |ps|
    ensures name in DecodeValues(ps, values).value <==> HasColumn(ps, |values|, name)
    ensures i < |values| && LastColumn(ps, |values|, i) ==>
      var m := DecodeValues(ps, values).value; ps[i].name in m && Column(ps, values, i) == Ok(m[ps[i].name])
    decreases |values|
  {
    DecodesExactly(ps, values);
    if values != [] {
      var n := |values| - 1;
      ColumnStep(ps, values);
      DecodedColumns(ps, values[..n], name, i);
      HasColumnStep(ps, n, name);
      if i < n {
        SameColumn(ps, values, n, i);
        LastColumnStep(ps, n, i);
      }
      hide DecodeValues, Column, HasColumn, LastColumn;
    }
  }

  lemma SameColumn(ps: seq<Property>, values: seq<Bytes>, n: nat, i: nat)
    requires i < n <= |values|
    ensures Column(ps, values[..n], i) == Column(ps, values, i)
  {
    hide Decode;
  }

  /** For any header and any number of columns: a row is read exactly when none of its columns fails, one beyond
      the header failing always; then each name holds its last column's value, and otherwise the first failure
      is the error. */
  lemma DecodedValuesExactly(ps: seq<Property>, values: seq<Bytes>, i: nat, e: CodecError, name: string)
    ensures DecodeValues(ps, values).Ok? <==> AllRead(ps, values)
    ensures DecodeValues(ps, values).Ok? ==> |values| <= |ps| && var m := DecodeValues(ps, values).value;
      && (name in m <==> HasColumn(ps, |values|, name))
      && (i < |values| && LastColumn(ps, |values|, i) ==>
            ps[i].name in m && Column(ps, values, i) == Ok(m[ps[i].name]))
    ensures i < |values| && AllRead(ps, values[..i]) && Column(ps, values, i) == Err(e) ==>
      DecodeValues(ps, values) == Err(e)
  {
    hide DecodeValues, Column;
    DecodesExactly(ps, values);
    if DecodeValues(ps, values).Ok? {
      DecodedColumns(ps, values, name, i);
    }
    if i < |values| && AllRead(ps, values[..i]) && Column(ps, values, i) == Err(e) {
      DecodesExactly(ps, values[..i]);
      ColumnStep(ps, values[..i + 1]);
      SameColumns(ps, values, i + 1);
      assert values[..i + 1][..i] == values[..i];
      DecodeValuesFails(ps, values, i + 1);
    }
  }

  lemma {:induction false} SchemaMapMeaning(schemas: seq<Schema>, i: nat)
    requires i < |schemas| && forall j :: i < j < |schemas| ==> schemas[j].name != schemas[i].name
    ensures SchemaMap(schemas)[schemas[i].name] == schemas[i]
    decreases |schemas|
  {
    if i < |schemas| - 1 {
      SchemaMapMeaning(schemas[..|schemas| - 1], i);
    }
  }

  /** A row is read under the last schema of its name; without one it must have no columns. */
  lemma RowIsReadUnderItsSchema<T>(schemas: seq<Schema>, row: EntityRow, make: (EntityRow, Values) -> T, i: nat)
    ensures (forall s :: s in schemas ==> s.name != row.schemaName) ==>
      DecodeRow(schemas, row, make) == if row.values == [] then Ok(make(row, map[])) else Err(Panic)
    ensures i < |schemas| && schemas[i].name == row.schemaName
            && (forall j :: i < j < |schemas| ==> schemas[j].name != row.schemaName) ==>
      DecodeRow(schemas, row, make) == match DecodeValues(schemas[i].properties, row.values)
                                       case Err(e) => Err(e)
                                       case Ok(values) => Ok(make(row, values))
  {
    hide DecodeValues;
    if i < |schemas| && schemas[i].name == row.schemaName
       && (forall j :: i < j < |schemas| ==> schemas[j].name != row.schemaName)
    {
      SchemaMapMeaning(schemas, i);
      assert schemas[i] in schemas;
    }
    hide SchemaMap;
  }

  ghost predicate HasUuid<T>(entities: seq<T>, uuid: T -> Uint64, u: Uint64) {
    exists i :: 0 <= i < |entities| && uuid(entities[i]) == u
  }

  /** The map by uuid holds the last entity of each uuid, and nothing else. */
  lemma {:induction false} LastOfEachUuid<T>(entities: seq<T>, uuid: T -> Uint64, u: Uint64, i: nat)
    ensures u in LastByUuid(entities, uuid) <==> HasUuid(entities, uuid, u)
    ensures i < |entities| && uuid(entities[i]) == u && (forall j :: i < j < |entities| ==> uuid(entities[j]) != u) ==>
      u in LastByUuid(entities, uuid) && LastByUuid(entities, uuid)[u] == entities[i]
    decreases |entities|
  {
    if entities != [] {
      var n := |entities| - 1;
      var front := entities[..n];
      assert entities == front + [entities[n]];
      LastOfEachUuid(front, uuid, u, i);
      LastByUuidStep(front, entities[n], uuid);
      HasUuidStep(front, entities[n], uuid, u);
      hide LastByUuid, HasUuid;
    }
  }

  lemma HasUuidStep<T>(front: seq<T>, last: T, uuid: T -> Uint64, u: Uint64)
    ensures HasUuid(front + [last], uuid, u) <==> HasUuid(front, uuid, u) || uuid(last) == u
  {
    var entities := front + [last];
    assert entities[|front|] == last;
    if HasUuid(front, uuid, u) {
      var i :| 0 <= i < |front| && uuid(front[i]) == u;
      assert uuid(entities[i]) == u;
    }
  }

  /** For any row: it converts exactly when every stored name is a key whose value encodes, column by column,
      and otherwise fails with the first column that does not; a row without values panics. */
  lemma {:induction false} EncodedValuesExactly(stored: seq<Property>, values: Values, req: Request, i: nat)
    ensures EncodeValues(stored, None, req) == if stored == [] then Ok([]) else Err(RowPanic)
    ensures EncodeValues(stored, Some(values), req).Ok? ==> i < |stored| ==>
      && stored[i].name in values
      && Encode(values[stored[i].name], stored[i].ptype, stored[i].subTypes, req)
         == Ok(EncodeValues(stored, Some(values), req).value[i])
    ensures i < |stored| && EncodeValues(stored[..i], Some(values), req).Ok? && stored[i].name !in values ==>
      EncodeValues(stored, Some(values), req) == Err(MissingProperty(stored[i].name))
    ensures i < |stored| && EncodeValues(stored[..i], Some(values), req).Ok? && stored[i].name in values
            && !Encodes(stored[i], values, req) ==>
      EncodeValues(stored, Some(values), req) == Err(NotSerialized(stored[i].name))
    decreases |stored|
  {
    hide Encode;
    if stored != [] {
      var n := |stored| - 1;
      EncodedValuesExactly(stored[..n], values, req, if i < n then i else 0);
      if i < n {
        assert stored[..n][..i] == stored[..i];
      }
    }
  }
}
