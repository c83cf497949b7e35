// Batch insertion: rows are grouped by schema and each batch is sent on its own (sdk/api/insert.nodes.go,
// insert.edges.go). Written once for nodes and edges: `R` is the row type.
module Batches {
  import opened Base
  import opened Types
  import opened Rows

  datatype Batch = Batch(schema: Schema, rows: seq<EntityRow>)

  type IndexMap = map<string, map<nat, nat>>

  /** utils.Find by schema name. */
  function FindSchema(schemas: seq<Schema>, name: string): (r: Option<Schema>)
    ensures r.Some? ==> r.value in schemas && r.value.name == name
    ensures r.None? ==> forall s :: s in schemas ==> s.name != name
  {
    if schemas == [] then None
    else if schemas[0].name == name then Some(schemas[0])
    else FindSchema(schemas[1..], name)
  }

  /** What a run converts: its rows, their schema names, and the row conversion. */
  datatype Input<!R> = Input(rows: seq<R>, schemaOf: R -> string, schemas: seq<Schema>,
                             convert: (Schema, R) -> Result<EntityRow, RowError>)
  {
    function Name(i: nat): string
      requires i < |rows|
    {
      schemaOf(rows[i])
    }

    function Converted(i: nat): Result<EntityRow, RowError>
      requires i < |rows|
    {
      match FindSchema(schemas, Name(i))
      case None => Err(SchemaNotFound(Name(i)))
      case Some(schema) => convert(schema, rows[i])
    }

    /** The positions of a schema's rows among the first `n`, in order. */
    function Positions(name: string, n: nat): seq<nat>
      requires n <= |rows|
    {
      if n == 0 then []
      else if Name(n - 1) == name then Positions(name, n - 1) + [n - 1]
      else Positions(name, n - 1)
    }

    /** How many rows of its own schema come before row `g`. */
    function Local(g: nat): nat
      requires g < |rows|
    {
      |Positions(Name(g), g)|
    }

    /** A batch holds its schema's rows converted in order, and its index map names their positions. */
    ghost predicate Holds(name: string, n: nat, batch: Batch, index: map<nat, nat>)
      requires n <= |rows|
    {
      var ps := Positions(name, n);
      && ps != [] && FindSchema(schemas, name) == Some(batch.schema)
      && |batch.rows| == |ps|
      && (forall k :: 0 <= k < |ps| ==> ps[k] < n && Converted(ps[k]) == Ok(batch.rows[k]))
      && (forall k :: k in index <==> 0 <= k < |ps|)
      && (forall k :: 0 <= k < |ps| ==> index[k] == ps[k])
    }

    /** The state of the grouping loop after `n` rows. */
    ghost predicate Grouped(n: nat, batches: map<string, Batch>, m: IndexMap)
      requires n <= |rows|
    {
      && batches.Keys == m.Keys
      && (forall name :: name in batches ==> Holds(name, n, batches[name], m[name]))
      && (forall i :: 0 <= i < n ==> Name(i) in batches)
    }
  }

  // ---- positions ----

  /** Positions lists exactly the rows of the schema, strictly increasing. */
  lemma {:induction false} PositionsMeaning<R>(input: Input<R>, name: string, n: nat)
    requires n <= |input.rows|
    ensures var ps := input.Positions(name, n);
      && (forall k, l :: 0 <= k < l < |ps| ==> ps[k] < ps[l])
      && (forall g :: g in ps ==> 0 <= g < n && input.Name(g) == name)
      && (forall g :: 0 <= g < n && input.Name(g) == name ==> g in ps)
  {
    if n > 0 {
      PositionsMeaning(input, name, n - 1);
      var ps := input.Positions(name, n - 1);
      if input.Name(n - 1) == name {
        var next := ps + [n - 1];
        assert input.Positions(name, n) == next;
        hide Input.Positions, Input.Name;
        forall k, l | 0 <= k < l < |next| ensures next[k] < next[l] {
          assert ps[k] in ps;
        }
        assert forall g :: g in next <==> g in ps || g == n - 1;
      }
    }
  }

  /** Row `g` sits in its batch at its local index. */
  lemma {:induction false} LocalIsPosition<R>(input: Input<R>, g: nat, n: nat)
    requires g < n <= |input.rows|
    ensures var ps := input.Positions(input.Name(g), n); input.Local(g) < |ps| && ps[input.Local(g)] == g
  {
    if g < n - 1 {
      LocalIsPosition(input, g, n - 1);
    }
  }

  /** The index maps are one-to-one: a local index of a batch belongs to one row, that row's own. */
  lemma PositionIsLocal<R>(input: Input<R>, name: string, k: nat, n: nat)
    requires n <= |input.rows| && k < |input.Positions(name, n)|
    ensures var g := input.Positions(name, n)[k]; g < n && input.Name(g) == name && input.Local(g) == k
  {
    var ps := input.Positions(name, n);
    PositionsMeaning(input, name, n);
    assert ps[k] in ps;
    LocalIsPosition(input, ps[k], n);
  }

  function Sizes(batches: map<string, Batch>): map<string, int> {
    map name | name in batches :: |batches[name].rows|
  }

  // ---- the grouping loop ----

  /** The batch a row is added to: its schema's own, or a new empty one. */
  ghost predicate Ready<R>(input: Input<R>, n: nat, batches: map<string, Batch>, m: IndexMap, batch: Batch,
          index: map<nat, nat>)
    requires n < |input.rows| && batches.Keys == m.Keys
  {
    var name := input.Name(n);
    && FindSchema(input.schemas, name) == Some(batch.schema)
    && if name in batches then batch == batches[name] && index == m[name]
       else input.Positions(name, n) == [] && batch.rows == [] && index == map[]
  }

  lemma GroupedStep<R>(input: Input<R>, n: nat, batches: map<string, Batch>, m: IndexMap, batch: Batch,
          index: map<nat, nat>)
    requires n < |input.rows| && input.Grouped(n, batches, m) && input.Converted(n).Ok?
    requires Ready(input, n, batches, m, batch, index)
    ensures var name, row := input.Name(n), input.Converted(n).value;
      input.Grouped(n + 1, batches[name := batch.(rows := batch.rows + [row])], m[name := index[|batch.rows| := n]])
  {
    hide Input.Holds;
    BatchStep(input, n, batch, index);
    forall other | other in batches && other != input.Name(n)
      ensures input.Holds(other, n + 1, batches[other], m[other])
    {
      OtherBatch(input, n, other, batches[other], m[other]);
    }
  }

  lemma OtherBatch<R>(input: Input<R>, n: nat, other: string, batch: Batch, index: map<nat, nat>)
    requires n < |input.rows| && other != input.Name(n) && input.Holds(other, n, batch, index)
    ensures input.Holds(other, n + 1, batch, index)
  {
    assert input.Positions(other, n + 1) == input.Positions(other, n);
  }

  lemma PositionsSnoc<R>(input: Input<R>, n: nat)
    requires n < |input.rows|
    ensures input.Positions(input.Name(n), n + 1) == input.Positions(input.Name(n), n) + [n]
  {
  }

  lemma BatchStep<R>(input: Input<R>, n: nat, batch: Batch, index: map<nat, nat>)
    requires n < |input.rows| && input.Converted(n).Ok?
    requires var name := input.Name(n);
      || input.Holds(name, n, batch, index)
      || (&& input.Positions(name, n) == [] && batch.rows == [] && index == map[]
          && FindSchema(input.schemas, name) == Some(batch.schema))
    ensures var name, row := input.Name(n), input.Converted(n).value;
      input.Holds(name, n + 1, batch.(rows := batch.rows + [row]), index[|batch.rows| := n])
  {
    hide Input.Converted, FindSchema, Input.Positions, Input.Name;
    PositionsSnoc(input, n);
    var ps, rows := input.Positions(input.Name(n), n), batch.rows + [input.Converted(n).value];
    var qs := ps + [n];
    forall k | 0 <= k < |qs| ensures qs[k] < n + 1 && input.Converted(qs[k]) == Ok(rows[k]) {
      if k < |ps| {
        assert qs[k] == ps[k] && rows[k] == batch.rows[k];
      }
    }
  }

  /** Nothing has been grouped under a schema that has no batch yet. */
  lemma {:induction false} NotYetSeen<R>(input: Input<R>, name: string, n: nat)
    requires n <= |input.rows| && forall i :: 0 <= i < n ==> input.Name(i) != name
    ensures input.Positions(name, n) == []
  {
    if n > 0 {
      NotYetSeen(input, name, n - 1);
    }
  }

  /** The first `n` rows convert. */
  ghost predicate AllConvert<R>(input: Input<R>, n: nat)
    requires n <= |input.rows|
  {
    forall i :: 0 <= i < n ==> input.Converted(i).Ok?
  }

  /** Row `i` is the first one that cannot be converted. */
  ghost predicate FirstFailure<R>(input: Input<R>, i: nat, e: RowError)
    requires i < |input.rows|
  {
    input.Converted(i) == Err(e) && AllConvert(input, i)
  }

  lemma ConvertsSoFar<R>(input: Input<R>, n: nat)
    requires n < |input.rows| && AllConvert(input, n)
    ensures input.Converted(n).Ok? ==> AllConvert(input, n + 1)
    ensures input.Converted(n).Err? ==>
      FirstFailure(input, n, input.Converted(n).error) && !AllConvert(input, |input.rows|)
  {
  }

  /** The grouping loop of InsertNodesBatchAuto and InsertEdgesBatchAuto. */
  method GroupRows<R>(input: Input<R>)
    returns (failed: Option<RowError>, batches: map<string, Batch>, m: IndexMap, ghost at: nat)
    ensures failed.None? ==> input.Grouped(|input.rows|, batches, m) && SumOver(Sizes(batches)) == |input.rows|
    ensures failed.None? <==> AllConvert(input, |input.rows|)
    ensures failed.Some? ==> at < |input.rows| && FirstFailure(input, at, failed.value)
  {
    failed, batches, m, at := None, map[], map[], 0;
    assert Sizes(batches) == map[];
    for index := 0 to |input.rows|
      invariant input.Grouped(index, batches, m)
      invariant SumOver(Sizes(batches)) == index
      invariant AllConvert(input, index)
    {
      hide Input.Grouped, Input.Holds, Ready, Sizes, SumOver, Input.Converted, AllConvert, FirstFailure, FindSchema;
      assert batches.Keys == m.Keys by { GroupedKeys(input, index, batches, m); }
      var name := input.schemaOf(input.rows[index]);
      ConvertsSoFar(input, index);
      var missing, batch, local := BatchOf(input, index, batches, m);
      if missing {
        return Some(SchemaNotFound(name)), batches, m, index;
      }
      var row := input.convert(batch.schema, input.rows[index]);
      ConvertedBy(input, index, batches, m, batch, local);
      if row.Err? {
        return Some(row.error), batches, m, index;
      }
      GroupedStep(input, index, batches, m, batch, local);
      SizesStep(input, index, batches, m, batch, local, row.value);
      batches := batches[name := batch.(rows := batch.rows + [row.value])];
      m := m[name := local[|batch.rows| := index]];
    }
  }

  /** The first part of the loop body: the row's schema gets a batch when it has none yet. */
  method BatchOf<R>(input: Input<R>, index: nat, batches: map<string, Batch>, m: IndexMap)
    returns (missing: bool, batch: Batch, local: map<nat, nat>)
    requires index < |input.rows| && input.Grouped(index, batches, m)
    ensures missing <==> FindSchema(input.schemas, input.Name(index)).None?
    ensures !missing ==> Ready(input, index, batches, m, batch, local)
    ensures missing ==> input.Converted(index) == Err(SchemaNotFound(input.Name(index)))
  {
    var name := input.schemaOf(input.rows[index]);
    if name in batches {
      BatchSchema(input, name, index, batches[name], m[name]);
      return false, batches[name], m[name];
    }
    NotYetSeen(input, name, index);
    var schema := FindSchema(input.schemas, name);
    if schema.None? {
      return true, Batch(Schema(name, []), []), map[];
    }
    return false, Batch(schema.value, []), map[];
  }

  lemma GroupedKeys<R>(input: Input<R>, n: nat, batches: map<string, Batch>, m: IndexMap)
    requires n <= |input.rows| && input.Grouped(n, batches, m)
    ensures batches.Keys == m.Keys
  {
  }

  lemma ConvertedBy<R>(input: Input<R>, n: nat, batches: map<string, Batch>, m: IndexMap, batch: Batch,
          index: map<nat, nat>)
    requires n < |input.rows| && batches.Keys == m.Keys && Ready(input, n, batches, m, batch, index)
    ensures input.Converted(n) == input.convert(batch.schema, input.rows[n])
  {
  }

  lemma BatchSchema<R>(input: Input<R>, name: string, n: nat, batch: Batch, index: map<nat, nat>)
    requires n <= |input.rows| && input.Holds(name, n, batch, index)
    ensures FindSchema(input.schemas, name) == Some(batch.schema)
  {
  }

  lemma SizesStep<R>(input: Input<R>, n: nat, batches: map<string, Batch>, m: IndexMap, batch: Batch,
          index: map<nat, nat>, row: EntityRow)
    requires n < |input.rows| && batches.Keys == m.Keys && Ready(input, n, batches, m, batch, index)
    ensures SumOver(Sizes(batches[input.Name(n) := batch.(rows := batch.rows + [row])])) == SumOver(Sizes(batches)) + 1
  {
    var name, larger := input.Name(n), batch.(rows := batch.rows + [row]);
    assert Sizes(batches[name := larger]) == Sizes(batches)[name := |larger.rows|];
    SumUpdate(Sizes(batches), name, |larger.rows|);
  }
}
