// What grouping and remapping add up to: the batches partition the rows, and an error lands on the row
// it was reported for.
module BatchLaws {
  import opened Base
  import opened Types
  import opened Codec
  import opened Rows
  import opened RowLaws
  import opened Batches
  import opened Remapping
  import Conversion

  /** Every row has exactly one place: its own schema's batch, at its own local index. */
  lemma RowsArePartitioned<R>(input: Input<R>, n: nat, batches: map<string, Batch>, m: IndexMap)
    requires n <= |input.rows| && input.Grouped(n, batches, m)
    ensures forall g :: 0 <= g < n ==>
      input.Name(g) in m && input.Local(g) in m[input.Name(g)] && m[input.Name(g)][input.Local(g)] == g
    ensures forall name, k :: name in m && k in m[name] ==>
      m[name][k] < n && input.Name(m[name][k]) == name && input.Local(m[name][k]) == k
    ensures forall name, k, l :: name in m && k in m[name] && l in m[name] && k < l ==> m[name][k] < m[name][l]
  {
    forall g | 0 <= g < n
      ensures input.Name(g) in m && input.Local(g) in m[input.Name(g)] && m[input.Name(g)][input.Local(g)] == g
    {
      LocalIsPosition(input, g, n);
      assert input.Holds(input.Name(g), n, batches[input.Name(g)], m[input.Name(g)]);
    }
    forall name, k | name in m && k in m[name]
      ensures m[name][k] < n && input.Name(m[name][k]) == name && input.Local(m[name][k]) == k
    {
      assert input.Holds(name, n, batches[name], m[name]);
      PositionIsLocal(input, name, k, n);
    }
    forall name, k, l | name in m && k in m[name] && l in m[name] && k < l ensures m[name][k] < m[name][l] {
      assert input.Holds(name, n, batches[name], m[name]);
      PositionsMeaning(input, name, n);
    }
  }

  // ---- remapping ----

  /** A report of message `message` is written at `g`. */
  ghost predicate Sourced(m: IndexMap, responses: Responses, g: nat, message: string) {
    exists name, k ::
      Reported(responses, name, k) && Target(m, name, k) == g && responses[name].errorItems[k] == message
  }

  /** Every entry comes from a report written there, and every report is written. */
  ghost predicate Remapped(m: IndexMap, responses: Responses, errorItem: map<nat, string>) {
    && (forall name, k :: Reported(responses, name, k) ==> Target(m, name, k) in errorItem)
    && (forall g :: g in errorItem ==> Sourced(m, responses, g, errorItem[g]))
  }

  /** One of the visits writes `message` at `g`. */
  ghost predicate WrittenBy(m: IndexMap, order: seq<Visit>, g: nat, message: string) {
    exists v :: v in order && Target(m, v.name, v.index) == g && v.message == message
  }

  /** What the visits write comes from them, and each of them is written. */
  lemma {:induction false} WrittenMeaning(m: IndexMap, order: seq<Visit>)
    ensures forall v :: v in order ==> Target(m, v.name, v.index) in Written(m, order)
    ensures forall g: nat :: g in Written(m, order) ==> WrittenBy(m, order, g, Written(m, order)[g])
  {
    if order != [] {
      var front, last := order[..|order| - 1], order[|order| - 1];
      WrittenMeaning(m, front);
      assert order == front + [last];
      forall g: nat | g in Written(m, order) ensures WrittenBy(m, order, g, Written(m, order)[g]) {
        if g == Target(m, last.name, last.index) {
          assert last in order;
        } else {
          assert WrittenBy(m, front, g, Written(m, front)[g]);
          var v :| v in front && Target(m, v.name, v.index) == g && v.message == Written(m, front)[g];
          assert v in order;
        }
      }
    }
  }

  /** What any visiting order writes is a remapping of the reports. */
  lemma WrittenIsRemapped(m: IndexMap, responses: Responses, order: seq<Visit>)
    requires VisitOrder(responses, order)
    ensures Remapped(m, responses, Written(m, order))
  {
    WrittenMeaning(m, order);
    hide Written;
    forall name, k | Reported(responses, name, k) ensures Target(m, name, k) in Written(m, order) {
      var v := Visit(name, k, responses[name].errorItems[k]);
      assert v in order;
    }
    forall g: nat | g in Written(m, order) ensures Sourced(m, responses, g, Written(m, order)[g]) {
      assert WrittenBy(m, order, g, Written(m, order)[g]);
      var v :| v in order && Target(m, v.name, v.index) == g && v.message == Written(m, order)[g];
      assert Reported(responses, v.name, v.index);
    }
  }

  /** A report of a local index its batch does not have. */
  ghost predicate Stray(m: IndexMap, responses: Responses, name: string, k: nat) {
    Reported(responses, name, k) && !(name in m && k in m[name])
  }

  ghost predicate AnyStray(m: IndexMap, responses: Responses) {
    exists name, k :: Stray(m, responses, name, k)
  }

  ghost predicate RowReported<R>(input: Input<R>, responses: Responses, g: nat)
    requires g < |input.rows|
  {
    Reported(responses, input.Name(g), input.Local(g))
  }

  /** The message the server reported for the row itself. */
  ghost predicate Blames<R>(input: Input<R>, responses: Responses, g: nat, message: string) {
    g < |input.rows| && RowReported(input, responses, g)
    && message == responses[input.Name(g)].errorItems[input.Local(g)]
  }

  /** A report that is in range lands on the row it is about, and only such reports land there. */
  lemma TargetOfRow<R>(input: Input<R>, batches: map<string, Batch>, m: IndexMap, name: string, k: nat)
    requires input.Grouped(|input.rows|, batches, m) && name in m && k in m[name]
    ensures var g := Target(m, name, k); g < |input.rows| && input.Name(g) == name && input.Local(g) == k
  {
    RowsArePartitioned(input, |input.rows|, batches, m);
  }

  /** In whatever order batches and items were visited: row `g` carries an error exactly when the server
      reported its place in its batch, and it is that message. Only row 0 can also be blamed for strays. */
  lemma RemapExactly<R>(input: Input<R>, batches: map<string, Batch>, m: IndexMap, responses: Responses,
          errorItem: map<nat, string>)
    requires input.Grouped(|input.rows|, batches, m) && Remapped(m, responses, errorItem)
    ensures forall g: nat ::
      (g in errorItem <==> (g < |input.rows| && RowReported(input, responses, g)) || (g == 0 && AnyStray(m, responses)))
    ensures forall g: nat :: g in errorItem && (g != 0 || !AnyStray(m, responses)) ==>
      Blames(input, responses, g, errorItem[g])
  {
    hide Input.Grouped;
    forall g: nat | g in errorItem
      ensures (g < |input.rows| && RowReported(input, responses, g)) || (g == 0 && AnyStray(m, responses))
      ensures g != 0 || !AnyStray(m, responses) ==> Blames(input, responses, g, errorItem[g])
    {
      assert Sourced(m, responses, g, errorItem[g]);
      var name, k :| Reported(responses, name, k) && Target(m, name, k) == g
        && responses[name].errorItems[k] == errorItem[g];
      if Stray(m, responses, name, k) {
        assert g == 0;
      } else {
        TargetOfRow(input, batches, m, name, k);
      }
    }
    forall g: nat | g < |input.rows| && RowReported(input, responses, g) ensures g in errorItem {
      RowsArePartitioned(input, |input.rows|, batches, m);
      assert Target(m, input.Name(g), input.Local(g)) == g;
    }
    if AnyStray(m, responses) {
      var name, k :| Stray(m, responses, name, k);
      assert Target(m, name, k) == 0;
    }
  }

  /** Without strays the result does not depend on any visiting order, and even with them the same rows
      are blamed. */
  lemma RemapIsOrderFree<R>(input: Input<R>, batches: map<string, Batch>, m: IndexMap, responses: Responses,
                            one: map<nat, string>, other: map<nat, string>)
    requires input.Grouped(|input.rows|, batches, m)
    requires Remapped(m, responses, one) && Remapped(m, responses, other)
    ensures one.Keys == other.Keys
    ensures !AnyStray(m, responses) ==> one == other
  {
    RemapExactly(input, batches, m, responses, one);
    RemapExactly(input, batches, m, responses, other);
  }

  lemma NoStrayElsewhere<R>(input: Input<R>, batches: map<string, Batch>, m: IndexMap, responses: Responses,
                            errorItem: map<nat, string>, g: nat)
    requires input.Grouped(|input.rows|, batches, m) && Remapped(m, responses, errorItem) && g in errorItem && g != 0
    ensures Blames(input, responses, g, errorItem[g])
  {
    hide Input.Grouped;
    RemapExactly(input, batches, m, responses, errorItem);
  }

  /** Two remappings can differ in row 0's message alone. */
  lemma SameApartFromRowZero<R>(input: Input<R>, batches: map<string, Batch>, m: IndexMap, responses: Responses,
                                one: map<nat, string>, other: map<nat, string>)
    requires input.Grouped(|input.rows|, batches, m)
    requires Remapped(m, responses, one) && Remapped(m, responses, other)
    ensures one.Keys == other.Keys
    ensures (0 in one && 0 in other ==> one[0] == other[0]) ==> one == other
  {
    hide Input.Grouped, Remapped, RowReported, AnyStray;
    RemapIsOrderFree(input, batches, m, responses, one, other);
    forall g | g in one && g != 0 ensures one[g] == other[g] {
      NoStrayElsewhere(input, batches, m, responses, one, g);
      NoStrayElsewhere(input, batches, m, responses, other, g);
    }
  }

  /** Which rows are blamed, whatever for: only reported rows if and only if no report is a stray or row 0
      was itself reported. */
  lemma BlamesOnlyReportedRowsExactly<R>(input: Input<R>, batches: map<string, Batch>, m: IndexMap,
                                         responses: Responses, errorItem: map<nat, string>)
    requires input.Grouped(|input.rows|, batches, m) && Remapped(m, responses, errorItem) && |input.rows| > 0
    ensures (forall g: nat :: g in errorItem ==> g < |input.rows| && RowReported(input, responses, g))
       <==> !AnyStray(m, responses) || RowReported(input, responses, 0)
  {
    RemapExactly(input, batches, m, responses, errorItem);
  }

  // ---- rows and messages, exactly ----

  /** Row `g` carries message `v` exactly when its own batch reported `v` at its local index. */
  ghost predicate TrueToReports<R>(input: Input<R>, responses: Responses, errorItem: map<nat, string>) {
    forall g: nat, v: string :: (g in errorItem && errorItem[g] == v) <==> Blames(input, responses, g, v)
  }

  /** Every stray says what the server reported for row 0 as well. */
  ghost predicate StraysAgree<R>(input: Input<R>, m: IndexMap, responses: Responses) {
    forall name, k :: Stray(m, responses, name, k) ==> Blames(input, responses, 0, responses[name].errorItems[k])
  }

  /** A report that is written to row 0. */
  ghost predicate HitsRowZero(m: IndexMap, responses: Responses, name: string, k: nat) {
    Reported(responses, name, k) && Target(m, name, k) == 0
  }

  /** Every report written to row 0 says the same. */
  ghost predicate OneMessageForRowZero(m: IndexMap, responses: Responses) {
    forall n1, k1, n2, k2 :: HitsRowZero(m, responses, n1, k1) && HitsRowZero(m, responses, n2, k2) ==>
      responses[n1].errorItems[k1] == responses[n2].errorItems[k2]
  }

  /** The items of a batch in some order. */
  lemma {:induction false} ItemsInOrder(name: string, items: map<nat, string>) returns (order: seq<Visit>)
    ensures BatchVisits(name, items, order)
    decreases |items|
  {
    if items == map[] {
      order := [];
    } else {
      var k :| k in items;
      order := ItemsInOrder(name, items - {k});
      OneItemMore(name, items - {k}, order, k, items[k]);
      assert (items - {k})[k := items[k]] == items;
      order := order + [Visit(name, k, items[k])];
    }
  }

  /** There is an order of all reports. */
  lemma {:induction false} SomeOrder(responses: Responses) returns (order: seq<Visit>)
    ensures VisitOrder(responses, order)
    decreases |responses|
  {
    if responses == map[] {
      order := [];
    } else {
      var name :| name in responses;
      order := SomeOrder(responses - {name});
      var mine := ItemsInOrder(name, responses[name].errorItems);
      OneBatchMore(responses - {name}, order, name, responses[name], mine);
      assert (responses - {name})[name := responses[name]] == responses;
      order := order + mine;
    }
  }

  /** There is one that ends with a given report: its batch last, and it last in its batch. */
  lemma OrderEndingIn(responses: Responses, name: string, k: nat) returns (order: seq<Visit>)
    requires Reported(responses, name, k)
    ensures VisitOrder(responses, order) && |order| > 0
    ensures order[|order| - 1] == Visit(name, k, responses[name].errorItems[k])
  {
    var items: map<nat, string> := responses[name].errorItems;
    var others := SomeOrder(responses - {name});
    var rest: map<nat, string> := items - {k};
    var mine := ItemsInOrder(name, rest);
    OneItemMore(name, rest, mine, k, items[k]);
    assert rest[k := items[k]] == items;
    OneBatchMore(responses - {name}, others, name, responses[name], mine + [Visit(name, k, items[k])]);
    assert (responses - {name})[name := responses[name]] == responses;
    order := others + (mine + [Visit(name, k, items[k])]);
  }

  /** Every remapping of the reports of a grouped run is what some visiting order writes. */
  lemma RemappedIsWritten<R>(input: Input<R>, batches: map<string, Batch>, m: IndexMap, responses: Responses,
                             errorItem: map<nat, string>)
    requires input.Grouped(|input.rows|, batches, m) && Remapped(m, responses, errorItem)
    ensures WrittenInSomeOrder(m, responses, errorItem)
  {
    var order;
    if 0 in errorItem {
      assert Sourced(m, responses, 0, errorItem[0]);
      var name, k :| Reported(responses, name, k) && Target(m, name, k) == 0
        && responses[name].errorItems[k] == errorItem[0];
      order := OrderEndingIn(responses, name, k);
      assert Written(m, order)[0] == errorItem[0];
    } else {
      order := SomeOrder(responses);
    }
    hide Written, VisitOrder, Input.Grouped, Remapped;
    WrittenIsRemapped(m, responses, order);
    SameApartFromRowZero(input, batches, m, responses, errorItem, Written(m, order));
  }

  /** Remapping puts every message where it belongs, in whatever order batches and items are visited, if
      and only if every stray repeats row 0's own message. */
  lemma RemapTrueExactly<R>(input: Input<R>, batches: map<string, Batch>, m: IndexMap, responses: Responses)
    requires input.Grouped(|input.rows|, batches, m)
    ensures (forall order :: VisitOrder(responses, order) ==> TrueToReports(input, responses, Written(m, order)))
       <==> StraysAgree(input, m, responses)
  {
    hide Input.Grouped, VisitOrder;
    if StraysAgree(input, m, responses) {
      hide TrueToReports, StraysAgree, Written;
      forall order | VisitOrder(responses, order) ensures TrueToReports(input, responses, Written(m, order)) {
        WrittenIsRemapped(m, responses, order);
        AgreeingStrays(input, batches, m, responses, Written(m, order));
      }
    } else {
      var name, k :| Stray(m, responses, name, k) && !Blames(input, responses, 0, responses[name].errorItems[k]);
      var order := OrderEndingIn(responses, name, k);
      assert Written(m, order)[0] == responses[name].errorItems[k];
      assert !TrueToReports(input, responses, Written(m, order));
    }
  }

  lemma AgreeingStrays<R>(input: Input<R>, batches: map<string, Batch>, m: IndexMap, responses: Responses,
                          errorItem: map<nat, string>)
    requires input.Grouped(|input.rows|, batches, m) && Remapped(m, responses, errorItem)
    requires StraysAgree(input, m, responses)
    ensures TrueToReports(input, responses, errorItem)
  {
    hide Input.Grouped, Remapped;
    forall g: nat, v: string ensures (g in errorItem && errorItem[g] == v) <==> Blames(input, responses, g, v) {
      TrueAt(input, batches, m, responses, errorItem, g);
    }
  }

  lemma TrueAt<R>(input: Input<R>, batches: map<string, Batch>, m: IndexMap, responses: Responses,
                  errorItem: map<nat, string>, g: nat)
    requires input.Grouped(|input.rows|, batches, m) && Remapped(m, responses, errorItem)
    requires StraysAgree(input, m, responses)
    ensures g in errorItem ==> Blames(input, responses, g, errorItem[g])
    ensures g < |input.rows| && RowReported(input, responses, g) ==> g in errorItem
  {
    hide Input.Grouped, StraysAgree;
    RemapExactly(input, batches, m, responses, errorItem);
    if g == 0 && g in errorItem {
      assert Sourced(m, responses, 0, errorItem[0]);
      hide Remapped, Blames;
      var name, k :| Reported(responses, name, k) && Target(m, name, k) == 0
        && responses[name].errorItems[k] == errorItem[0];
      SourceOfRowZero(input, batches, m, responses, name, k);
    }
  }

  lemma SourceOfRowZero<R>(input: Input<R>, batches: map<string, Batch>, m: IndexMap, responses: Responses,
                           name: string, k: nat)
    requires input.Grouped(|input.rows|, batches, m) && StraysAgree(input, m, responses)
    requires HitsRowZero(m, responses, name, k)
    ensures Blames(input, responses, 0, responses[name].errorItems[k])
  {
    hide Input.Grouped;
    if !Stray(m, responses, name, k) {
      TargetOfRow(input, batches, m, name, k);
    }
  }

  /** All visiting orders write the same. */
  ghost predicate OrderFree(m: IndexMap, responses: Responses) {
    forall one, other :: VisitOrder(responses, one) && VisitOrder(responses, other) ==>
      Written(m, one) == Written(m, other)
  }

  /** The result is independent of the visiting order if and only if all reports written to row 0 say
      the same. */
  lemma OrderFreeExactly<R>(input: Input<R>, batches: map<string, Batch>, m: IndexMap, responses: Responses)
    requires input.Grouped(|input.rows|, batches, m)
    ensures OrderFree(m, responses) <==> OneMessageForRowZero(m, responses)
  {
    hide Input.Grouped, VisitOrder;
    if OneMessageForRowZero(m, responses) {
      hide OneMessageForRowZero, Written;
      forall one, other | VisitOrder(responses, one) && VisitOrder(responses, other)
        ensures Written(m, one) == Written(m, other)
      {
        WrittenIsRemapped(m, responses, one);
        WrittenIsRemapped(m, responses, other);
        SameResult(input, batches, m, responses, Written(m, one), Written(m, other));
      }
    } else {
      var n1, k1, n2, k2 :| HitsRowZero(m, responses, n1, k1) && HitsRowZero(m, responses, n2, k2)
        && responses[n1].errorItems[k1] != responses[n2].errorItems[k2];
      var one := OrderEndingIn(responses, n1, k1);
      var other := OrderEndingIn(responses, n2, k2);
      assert Written(m, one)[0] != Written(m, other)[0];
    }
  }

  lemma SameResult<R>(input: Input<R>, batches: map<string, Batch>, m: IndexMap, responses: Responses,
                      one: map<nat, string>, other: map<nat, string>)
    requires input.Grouped(|input.rows|, batches, m) && OneMessageForRowZero(m, responses)
    requires Remapped(m, responses, one) && Remapped(m, responses, other)
    ensures one == other
  {
    SameApartFromRowZero(input, batches, m, responses, one, other);
    if 0 in one {
      SameAtRowZero(m, responses, one, other);
    }
  }

  lemma SameAtRowZero(m: IndexMap, responses: Responses, one: map<nat, string>, other: map<nat, string>)
    requires OneMessageForRowZero(m, responses) && Remapped(m, responses, one) && Remapped(m, responses, other)
    requires 0 in one && 0 in other
    ensures one[0] == other[0]
  {
    assert Sourced(m, responses, 0, one[0]) && Sourced(m, responses, 0, other[0]);
    var n1, k1 :| Reported(responses, n1, k1) && Target(m, n1, k1) == 0 && responses[n1].errorItems[k1] == one[0];
    var n2, k2 :| Reported(responses, n2, k2) && Target(m, n2, k2) == 0 && responses[n2].errorItems[k2] == other[0];
    assert HitsRowZero(m, responses, n1, k1) && HitsRowZero(m, responses, n2, k2);
  }

  // ---- from the server's codes to the caller's rows ----

  /** The last code the server sent for a local index of a batch. */
  ghost predicate LastCode(reply: InsertReply, k: nat, code: nat) {
    exists i :: 0 <= i < |reply.ignoreIndexes| && i < |reply.ignoreErrorCode| && reply.ignoreIndexes[i] == k
      && reply.ignoreErrorCode[i] == code && forall j :: i < j < |reply.ignoreIndexes| ==> reply.ignoreIndexes[j] != k
  }

  /** The message is the name of that code, or empty when the code has none. */
  ghost predicate NamesLastCode(reply: InsertReply, k: nat, message: string) {
    exists code :: LastCode(reply, k, code) && Names(code, message)
  }

  predicate Names(code: nat, message: string) {
    if 10001 <= code <= 10012 || code == 11001 || code == 19999 then CodeOf(message) == Some(code) else message == ""
  }

  /** From one end to the other, in any visiting order: a row carries a message exactly when the server sent a
      code for its place in its batch, and the message is the name of the last such code, or empty for a code
      without a name. Row 0 is only sure to when no report is a stray. */
  lemma MessagesNameCodes<R>(input: Input<R>, batches: map<string, Batch>, m: IndexMap,
                             replies: map<string, InsertReply>, responses: Responses, order: seq<Visit>, g: nat)
    requires input.Grouped(|input.rows|, batches, m) && VisitOrder(responses, order) && responses.Keys == replies.Keys
    requires forall name :: name in replies ==>
      |replies[name].ignoreIndexes| <= |replies[name].ignoreErrorCode|
      && Reports(replies[name], |replies[name].ignoreIndexes|, responses[name].errorItems)
    requires g < |input.rows| && (g > 0 || !AnyStray(m, responses))
    ensures g in Written(m, order) <==>
      input.Name(g) in replies && input.Local(g) in replies[input.Name(g)].ignoreIndexes
    ensures g in Written(m, order) ==>
      NamesLastCode(replies[input.Name(g)], input.Local(g), Written(m, order)[g])
  {
    WrittenIsRemapped(m, responses, order);
    hide Input.Grouped, Written, VisitOrder;
    RemapExactly(input, batches, m, responses, Written(m, order));
    hide Remapped;
    var name, k := input.Name(g), input.Local(g);
    if name in replies {
      var reply := replies[name];
      assert Reports(reply, |reply.ignoreIndexes|, responses[name].errorItems);
      assert reply.ignoreIndexes[..|reply.ignoreIndexes|] == reply.ignoreIndexes;
      if k in reply.ignoreIndexes {
        assert Reported(responses, name, k) && Blames(input, responses, g, Written(m, order)[g]);
        NamedByLastCode(reply, responses[name].errorItems, k);
      }
    }
  }

  lemma NamedByLastCode(reply: InsertReply, items: map<nat, string>, k: nat)
    requires |reply.ignoreIndexes| <= |reply.ignoreErrorCode| && Reports(reply, |reply.ignoreIndexes|, items)
    requires k in reply.ignoreIndexes
    ensures k in items && NamesLastCode(reply, k, items[k])
  {
    hide CodeName, CodeOf;
    var indexes := reply.ignoreIndexes;
    assert indexes[..|indexes|] == indexes;
    var i := LastPlaceOf(indexes, k);
    assert LastReport(indexes, i, |indexes|);
    CodesAreNamed(reply.ignoreErrorCode[i]);
    assert LastCode(reply, k, reply.ignoreErrorCode[i]) && Names(reply.ignoreErrorCode[i], items[k]);
  }

  lemma {:induction false} LastPlaceOf(indexes: seq<nat>, k: nat) returns (i: nat)
    requires k in indexes
    ensures i < |indexes| && indexes[i] == k && forall j :: i < j < |indexes| ==> indexes[j] != k
  {
    var n := |indexes| - 1;
    if indexes[n] == k {
      i := n;
    } else {
      assert indexes == indexes[..n] + [indexes[n]];
      i := LastPlaceOf(indexes[..n], k);
    }
  }

  // ---- batches, there and back ----

  function NodeInput(rows: seq<Node>, schemas: seq<Schema>, req: Request): Input<Node> {
    Input(rows, (node: Node) => node.schema, schemas,
          (schema: Schema, node: Node) => ConvertNode(schema, node, req))
  }

  function EdgeInput(rows: seq<Edge>, schemas: seq<Schema>, req: Request): Input<Edge> {
    Input(rows, (edge: Edge) => edge.schema, schemas,
          (schema: Schema, edge: Edge) => ConvertEdge(schema, edge, req))
  }

  /** The rows of a schema, in order. */
  function Picked<R>(rows: seq<R>, positions: seq<nat>): (r: seq<R>)
    requires forall k :: 0 <= k < |positions| ==> positions[k] < |rows|
    ensures |r| == |positions| && forall k :: 0 <= k < |r| ==> r[k] == rows[positions[k]]
  {
    seq(|positions|, k requires 0 <= k < |positions| => rows[positions[k]])
  }

  /** A batch holds, for each of its schema's rows in order, that row's conversion. */
  lemma BatchOfSchema<R>(input: Input<R>, batches: map<string, Batch>, m: IndexMap, name: string)
    requires input.Grouped(|input.rows|, batches, m) && name in batches
    ensures var ps, batch := input.Positions(name, |input.rows|), batches[name];
      && batch.schema in input.schemas && batch.schema.name == name && |batch.rows| == |ps|
      && (forall k :: 0 <= k < |ps| ==> ps[k] < |input.rows| && input.Name(ps[k]) == name)
      && (forall k :: 0 <= k < |ps| ==> input.convert(batch.schema, Picked(input.rows, ps)[k]) == Ok(batch.rows[k]))
  {
    var ps, batch := input.Positions(name, |input.rows|), batches[name];
    assert input.Holds(name, |input.rows|, batch, m[name]);
    PositionsMeaning(input, name, |input.rows|);
    assert forall k :: 0 <= k < |ps| ==> ps[k] in ps;
    forall k | 0 <= k < |ps| ensures input.convert(batch.schema, Picked(input.rows, ps)[k]) == Ok(batch.rows[k]) {
      assert ps[k] in ps && input.Name(ps[k]) == name;
      assert input.Converted(ps[k]) == Ok(batch.rows[k]);
    }
  }

  /** Grouping, conversion and decoding together: the batch of a schema, read back under its own header,
      gives that schema's rows in order, each with its identity, schema and normalised values. */
  lemma BatchComesBack(rows: seq<Node>, schemas: seq<Schema>, req: Request, batches: map<string, Batch>, m: IndexMap,
                       name: string, nodes: seq<Node>, sent: seq<Node>)
    requires NodeInput(rows, schemas, req).Grouped(|rows|, batches, m) && name in batches
    requires var ps := NodeInput(rows, schemas, req).Positions(name, |rows|);
      (forall k :: 0 <= k < |ps| ==> ps[k] < |rows|) && nodes == Picked(rows, ps) && |sent| == |nodes|
    requires forall k :: 0 <= k < |nodes| ==>
      Sendable(batches[name].schema, nodes[k].values) && sent[k] == SentNode(batches[name].schema, nodes[k])
    ensures batches[name].schema.name == name
    ensures DecodeRows([Header(batches[name].schema)], batches[name].rows, NodeOf) == Ok(sent)
  {
    hide Sendable, ConvertNode, SentNode, DecodeRows;
    BatchOfSchema(NodeInput(rows, schemas, req), batches, m, name);
    hide Input.Grouped, Input.Positions;
    BatchRoundTrip(batches[name].schema, nodes, batches[name].rows, sent, req);
  }

  lemma EdgeBatchComesBack(rows: seq<Edge>, schemas: seq<Schema>, req: Request, batches: map<string, Batch>,
                           m: IndexMap, name: string, edges: seq<Edge>, sent: seq<Edge>)
    requires EdgeInput(rows, schemas, req).Grouped(|rows|, batches, m) && name in batches
    requires var ps := EdgeInput(rows, schemas, req).Positions(name, |rows|);
      (forall k :: 0 <= k < |ps| ==> ps[k] < |rows|) && edges == Picked(rows, ps) && |sent| == |edges|
    requires forall k :: 0 <= k < |edges| ==>
      SendableEdge(batches[name].schema, edges[k]) && sent[k] == SentEdge(batches[name].schema, edges[k])
    ensures batches[name].schema.name == name
    ensures DecodeRows([Header(batches[name].schema)], batches[name].rows, EdgeOf) == Ok(sent)
  {
    hide Sendable, CheckEdge, ConvertEdge, SentEdge, DecodeRows;
    BatchOfSchema(EdgeInput(rows, schemas, req), batches, m, name);
    hide Input.Grouped, Input.Positions;
    EdgeBatchRoundTrip(batches[name].schema, edges, batches[name].rows, sent, req);
  }

  // ---- the concurrent conversion of a batch ----

  /** doConvertSdkNodeRowToUltipaNodeRow, which runs after the check. */
  function ConvertChecked(schema: Schema, node: Node, req: Request): Result<EntityRow, RowError>
  {
    match EncodeValues(StoredProperties(schema.properties), node.values, req)
    case Err(e) => Err(e)
    case Ok(values) => Ok(NodeHead(schema, node, values))
  }

  function ConvertCheckedEdge(schema: Schema, edge: Edge, req: Request): Result<EntityRow, RowError>
  {
    match EncodeValues(StoredProperties(schema.properties), edge.values, req)
    case Err(e) => Err(e)
    case Ok(values) => Ok(EdgeHead(schema, edge, values))
  }

  /** What setPropertiesToNodeRow checks and converts. */
  function NodeJob(schema: Schema, nodes: seq<Node>, req: Request): Conversion.Job<EntityRow, RowError>
  {
    Conversion.Job(
      seq(|nodes|, i requires 0 <= i < |nodes| => CheckValues(StoredProperties(schema.properties), nodes[i].values)),
      seq(|nodes|, i requires 0 <= i < |nodes| => ConvertChecked(schema, nodes[i], req)))
  }

  /** What setPropertiesToEdgeRow checks and converts. */
  function EdgeJob(schema: Schema, edges: seq<Edge>, req: Request): Conversion.Job<EntityRow, RowError>
  {
    Conversion.Job(
      seq(|edges|, i requires 0 <= i < |edges| => CheckEdge(edges[i], StoredProperties(schema.properties))),
      seq(|edges|, i requires 0 <= i < |edges| => ConvertCheckedEdge(schema, edges[i], req)))
  }

  /** What the two jobs check and convert, row by row: a node's check passes exactly when its values do, an
      edge's when its endpoints do too, and a result is there exactly when every stored value encodes. */
  lemma JobsExactly(schema: Schema, nodes: seq<Node>, edges: seq<Edge>, req: Request, i: nat, values: Values)
    ensures i < |nodes| && nodes[i].values == Some(values) ==>
      && (NodeJob(schema, nodes, req).checks[i] == CheckValues(StoredProperties(schema.properties), Some(values)))
      && (NodeJob(schema, nodes, req).results[i].Ok? <==> Convertible(schema, values, req))
    ensures i < |edges| && edges[i].values == Some(values) ==>
      && (EdgeJob(schema, edges, req).checks[i].None? <==>
            && CheckValues(StoredProperties(schema.properties), Some(values)).None?
            && (edges[i].from in ["", "nil", "null"] <==> edges[i].to in ["", "nil", "null"])
            && (edges[i].fromUuid == 0 <==> edges[i].toUuid == 0)
            && (edges[i].from !in ["", "nil", "null"] || edges[i].fromUuid != 0))
      && (EdgeJob(schema, edges, req).results[i].Ok? <==> Convertible(schema, values, req))
  {
    var stored := StoredProperties(schema.properties);
    hide StoredProperties, CheckValues, Encode;
    if forall p :: p in stored ==> p.name in values {
      CheckedRowsConvert(stored, values, req);
    } else {
      MissingFails(stored, values, req);
    }
    hide EncodeValues, Encodes;
    if i < |edges| {
      EdgeAcceptedExactly(edges[i], stored);
      hide CheckEdge;
    }
  }

  /** Every stored name is a key and its value can be encoded. */
  ghost predicate Convertible(schema: Schema, values: Values, req: Request) {
    forall p :: p in StoredProperties(schema.properties) ==> p.name in values && Encodes(p, values, req)
  }

  lemma {:induction false} MissingFails(stored: seq<Property>, values: Values, req: Request)
    requires exists p :: p in stored && p.name !in values
    ensures EncodeValues(stored, Some(values), req).Err?
  {
    hide Encode;
    var front, last := stored[..|stored| - 1], stored[|stored| - 1];
    assert stored == front + [last];
    if last.name in values {
      MissingFails(front, values, req);
    }
  }

  /** The rows a run leaves in its slots. */
  function SlotRows(s: Conversion.State<EntityRow, RowError>): (rows: seq<EntityRow>)
    requires Conversion.Clean(s)
  {
    seq(|s.rows|, i requires 0 <= i < |s.rows| => s.rows[i].value)
  }

  /** However the goroutines interleave, a batch of checked, well-typed nodes is converted without an
      error, and the table sent decodes to exactly those nodes. */
  lemma EveryRunComesBack(schema: Schema, nodes: seq<Node>, sent: seq<Node>, req: Request,
                          ss: seq<Conversion.State<EntityRow, RowError>>)
    requires |sent| == |nodes|
    requires forall i :: 0 <= i < |nodes| ==> Sendable(schema, nodes[i].values) && sent[i] == SentNode(schema, nodes[i])
    requires Conversion.Run(NodeJob(schema, nodes, req), ss) && Conversion.Complete(ss)
    ensures Conversion.Clean(ss[|ss| - 1])
    ensures DecodeRows([Header(schema)], SlotRows(ss[|ss| - 1]), NodeOf) == Ok(sent)
  {
    var job := NodeJob(schema, nodes, req);
    forall i | 0 <= i < |nodes|
      ensures job.checks[i].None? && job.results[i].Ok? && ConvertNode(schema, nodes[i], req) == job.results[i]
    {
      NodeRoundTrip(schema, nodes[i], req);
    }
    Conversion.GoodRowsConvert(job, ss);
    BatchRoundTrip(schema, nodes, SlotRows(ss[|ss| - 1]), sent, req);
  }

  lemma EveryEdgeRunComesBack(schema: Schema, edges: seq<Edge>, sent: seq<Edge>, req: Request,
                              ss: seq<Conversion.State<EntityRow, RowError>>)
    requires |sent| == |edges|
    requires forall i :: 0 <= i < |edges| ==> SendableEdge(schema, edges[i]) && sent[i] == SentEdge(schema, edges[i])
    requires Conversion.Run(EdgeJob(schema, edges, req), ss) && Conversion.Complete(ss)
    ensures Conversion.Clean(ss[|ss| - 1])
    ensures DecodeRows([Header(schema)], SlotRows(ss[|ss| - 1]), EdgeOf) == Ok(sent)
  {
    var job := EdgeJob(schema, edges, req);
    forall i | 0 <= i < |edges|
      ensures job.checks[i].None? && job.results[i].Ok? && ConvertEdge(schema, edges[i], req) == job.results[i]
    {
      EdgeRoundTrip(schema, edges[i], req);
    }
    Conversion.GoodRowsConvert(job, ss);
    EdgeBatchRoundTrip(schema, edges, SlotRows(ss[|ss| - 1]), sent, req);
  }

  // ---- what goes wrong, on real rows ----

  /** A schema of one stored INT32 property. */
  const ONE_COLUMN: Schema := Schema("A", [Property("x", INT32, [])])

  function Row(uuid: Uint64, values: Values): Node {
    Node("", uuid, "A", Some(values))
  }

  /** The first node's value cannot be serialized, yet a run ends without an error and with an empty slot. */
  lemma NodeErrorCanBeLost(req: Request) returns (ss: seq<Conversion.State<EntityRow, RowError>>)
    ensures var nodes := [Row(1, map["x" := Other]), Row(2, map["x" := Int32Value(7)])];
      && Conversion.Run(NodeJob(ONE_COLUMN, nodes, req), ss) && Conversion.NilError(ss)
      && ss[|ss| - 1].rows == [None, Some(NodeHead(ONE_COLUMN, nodes[1], [[0, 0, 0, 7]]))]
  {
    hide ConvertChecked, CheckValues, StoredProperties, NodeJob, NodeHead, Conversion.Run;
    var bad, good := Row(1, map["x" := Other]), Row(2, map["x" := Int32Value(7)]);
    OneColumnConverts(bad, req);
    OneColumnConverts(good, req);
    OneColumnChecks(bad);
    OneColumnChecks(good);
    JobOfTwo(bad, good, req);
    var e, r := NotSerialized("x"), NodeHead(ONE_COLUMN, good, [[0, 0, 0, 7]]);
    ss := Conversion.ErrorCanBeLost(e, r);
  }

  /** The second node has a value the schema does not know, which its check refuses; a run converts it all
      the same, without that value and without an error. */
  lemma NodeCheckCanBeMissed(req: Request) returns (ss: seq<Conversion.State<EntityRow, RowError>>)
    ensures var nodes := [Row(1, map["x" := Int32Value(7)]), Row(2, map["x" := Int32Value(7), "y" := Int32Value(8)])];
      && Conversion.Run(NodeJob(ONE_COLUMN, nodes, req), ss) && Conversion.NilError(ss)
      && ss[|ss| - 1].rows == [Some(NodeHead(ONE_COLUMN, nodes[0], [[0, 0, 0, 7]])),
                               Some(NodeHead(ONE_COLUMN, nodes[1], [[0, 0, 0, 7]]))]
  {
    hide ConvertChecked, CheckValues, StoredProperties, NodeJob, NodeHead, Conversion.Run;
    var one, two := Row(1, map["x" := Int32Value(7)]), Row(2, map["x" := Int32Value(7), "y" := Int32Value(8)]);
    OneColumnConverts(one, req);
    OneColumnConverts(two, req);
    OneColumnChecks(one);
    OneColumnChecks(two);
    JobOfTwo(one, two, req);
    var q, r := NodeHead(ONE_COLUMN, one, [[0, 0, 0, 7]]), NodeHead(ONE_COLUMN, two, [[0, 0, 0, 7]]);
    ss := Conversion.CheckCanBeMissed(TooManyValues, q, r);
  }

  lemma OneColumn()
    ensures StoredProperties(ONE_COLUMN.properties) == ONE_COLUMN.properties
  {
    assert ONE_COLUMN.properties[..0] == [] && StoredProperties([]) == [];
  }

  lemma OneColumnConverts(node: Node, req: Request)
    requires node.values.Some? && "x" in node.values.value
    ensures node.values.value["x"] == Other ==> ConvertChecked(ONE_COLUMN, node, req) == Err(NotSerialized("x"))
    ensures node.values.value["x"] == Int32Value(7) ==>
      ConvertChecked(ONE_COLUMN, node, req) == Ok(NodeHead(ONE_COLUMN, node, [[0, 0, 0, 7]]))
  {
    OneColumn();
    SevenEncodes(req);
    hide Encode, StoredProperties;
    var ps := ONE_COLUMN.properties;
    assert EncodeValues(ps[..0], node.values, req) == Ok([]);
    assert [] + [[0, 0, 0, 7]] == [[0, 0, 0, 7]];
  }

  lemma OneColumnChecks(node: Node)
    requires node.values.Some? && "x" in node.values.value
    ensures CheckValues(StoredProperties(ONE_COLUMN.properties), node.values)
         == if |node.values.value| > 1 then Some(TooManyValues) else None
  {
    OneColumn();
    hide StoredProperties;
    assert |node.values.value| > 0;
    assert FirstMissing(ONE_COLUMN.properties[1..], node.values.value) == None;
  }

  lemma JobOfTwo(one: Node, two: Node, req: Request)
    ensures var stored := StoredProperties(ONE_COLUMN.properties);
      NodeJob(ONE_COLUMN, [one, two], req)
      == Conversion.Job([CheckValues(stored, one.values), CheckValues(stored, two.values)],
                        [ConvertChecked(ONE_COLUMN, one, req), ConvertChecked(ONE_COLUMN, two, req)])
  {
    hide CheckValues, ConvertChecked, StoredProperties;
  }

  lemma SevenEncodes(req: Request)
    ensures Encode(Int32Value(7), INT32, [], req) == Ok([0, 0, 0, 7])
    ensures Encode(Other, INT32, [], req).Err?
  {
    BytesOfSeven();
    hide BigEndian;
    assert EncodePlain(Int32Value(7)) == Ok(BigEndian(7, 4));
  }

  /** An edge from node 1 to node `toUuid`, which is none when it is 0. */
  function Link(toUuid: Uint64, values: Values): Edge {
    Edge(9, 1, toUuid, "", "", "A", Some(values))
  }

  lemma LinkConverts(edge: Edge, req: Request)
    requires edge.values == Some(map["x" := Int32Value(7)])
    ensures ConvertCheckedEdge(ONE_COLUMN, edge, req) == Ok(EdgeHead(ONE_COLUMN, edge, [[0, 0, 0, 7]]))
  {
    OneColumn();
    SevenEncodes(req);
    hide Encode, StoredProperties;
    var ps := ONE_COLUMN.properties;
    assert EncodeValues(ps[..0], edge.values, req) == Ok([]);
    assert [] + [[0, 0, 0, 7]] == [[0, 0, 0, 7]];
  }

  lemma LinkChecks(toUuid: Uint64)
    ensures CheckEdge(Link(toUuid, map["x" := Int32Value(7)]), StoredProperties(ONE_COLUMN.properties))
         == if toUuid == 0 then Some(OneEndpointUuid) else None
  {
    OneColumnChecks(Row(1, map["x" := Int32Value(7)]));
    hide CheckValues, StoredProperties;
    EdgeRefusalExactly(Link(toUuid, map["x" := Int32Value(7)]), StoredProperties(ONE_COLUMN.properties));
  }

  lemma EdgeJobOfTwo(one: Edge, two: Edge, req: Request)
    ensures var stored := StoredProperties(ONE_COLUMN.properties);
      EdgeJob(ONE_COLUMN, [one, two], req)
      == Conversion.Job([CheckEdge(one, stored), CheckEdge(two, stored)],
                        [ConvertCheckedEdge(ONE_COLUMN, one, req), ConvertCheckedEdge(ONE_COLUMN, two, req)])
  {
    hide CheckEdge, ConvertCheckedEdge, StoredProperties;
  }

  /** The second edge has no endpoint to go to, which its check refuses; a run sends it all the same, without
      an error. */
  lemma EdgeCheckCanBeMissed(req: Request) returns (ss: seq<Conversion.State<EntityRow, RowError>>)
    ensures var edges := [Link(2, map["x" := Int32Value(7)]), Link(0, map["x" := Int32Value(7)])];
      && Conversion.Run(EdgeJob(ONE_COLUMN, edges, req), ss) && Conversion.NilError(ss)
      && ss[|ss| - 1].rows == [Some(EdgeHead(ONE_COLUMN, edges[0], [[0, 0, 0, 7]])),
                               Some(EdgeHead(ONE_COLUMN, edges[1], [[0, 0, 0, 7]]))]
  {
    hide ConvertCheckedEdge, CheckEdge, StoredProperties, EdgeJob, EdgeHead, Conversion.Run;
    var one, two := Link(2, map["x" := Int32Value(7)]), Link(0, map["x" := Int32Value(7)]);
    LinkConverts(one, req);
    LinkConverts(two, req);
    LinkChecks(2);
    LinkChecks(0);
    EdgeJobOfTwo(one, two, req);
    ss := Conversion.CheckCanBeMissed(OneEndpointUuid, EdgeHead(ONE_COLUMN, one, [[0, 0, 0, 7]]),
                                      EdgeHead(ONE_COLUMN, two, [[0, 0, 0, 7]]));
  }

  lemma BytesOfSeven()
    ensures BigEndian(7, 4) == [0, 0, 0, 7]
  {
    assert BigEndian(0, 2) == [0, 0];
    assert BigEndian(0, 3) == [0, 0] + [0];
    assert BigEndian(7, 4) == [0, 0, 0] + [7] == [0, 0, 0, 7];
  }

  lemma OneRowGroup(schema: Schema, node: Node, req: Request)
    requires schema == Schema("A", []) && node == Node("", 1, "A", None)
    ensures NodeInput([node], [schema], req)
      .Grouped(1, map["A" := Batch(schema, [NodeHead(schema, node, [])])], map["A" := map[0 := 0]])
  {
    var input := NodeInput([node], [schema], req);
    BareNodeConverts(schema, node, req);
    hide ConvertNode, NodeHead;
    assert FindSchema([schema], "A") == Some(schema);
    var batch, index: map<nat, nat> := Batch(schema, []), map[];
    assert Ready(input, 0, map[], map[], batch, index);
    GroupedStep(input, 0, map[], map[], batch, index);
    hide Input.Grouped, Ready;
    assert [] + [NodeHead(schema, node, [])] == [NodeHead(schema, node, [])];
    assert map[]["A" := map[0 := 0]] == map["A" := map[0 := 0]];
  }

  lemma BareNodeConverts(schema: Schema, node: Node, req: Request)
    requires schema == Schema("A", []) && node == Node("", 1, "A", None)
    ensures ConvertNode(schema, node, req) == Ok(NodeHead(schema, node, []))
  {
    assert StoredProperties(schema.properties) == [];
  }

  lemma StrayOrder()
    ensures var responses := map["A" := InsertResponse(map[0 := "ID_LEN", 7 := "NOT_NULL"], 0, 0)];
      VisitOrder(responses, [Visit("A", 0, "ID_LEN"), Visit("A", 7, "NOT_NULL")])
  {
    var responses := map["A" := InsertResponse(map[0 := "ID_LEN", 7 := "NOT_NULL"], 0, 0)];
    assert forall name, k :: Reported(responses, name, k) ==> name == "A" && (k == 0 || k == 7);
  }

  lemma WrittenTwice(m: IndexMap, first: Visit, second: Visit)
    ensures Written(m, [first, second])
         == map[Target(m, first.name, first.index) := first.message,
                Target(m, second.name, second.index) := second.message]
  {
    assert Written(m, []) == map[];
    hide Written, Target;
    WrittenSnoc(m, [], first);
    WrittenSnoc(m, [first], second);
    assert [] + [first] == [first] && [first] + [second] == [first, second];
  }

  /** One row that the server reported, and a stray report: the row ends with the stray's message. */
  lemma StrayMessageWins(req: Request)
    ensures var schema, node := Schema("A", []), Node("", 1, "A", None);
      var input, m := NodeInput([node], [schema], req), map["A" := map[0 := 0]];
      var responses := map["A" := InsertResponse(map[0 := "ID_LEN", 7 := "NOT_NULL"], 0, 0)];
      var order := [Visit("A", 0, "ID_LEN"), Visit("A", 7, "NOT_NULL")];
      && input.Grouped(1, map["A" := Batch(schema, [NodeHead(schema, node, [])])], m)
      && VisitOrder(responses, order) && RowReported(input, responses, 0)
      && Written(m, order) == map[0 := "NOT_NULL"] && !Blames(input, responses, 0, "NOT_NULL")
  {
    var schema, node := Schema("A", []), Node("", 1, "A", None);
    var input := NodeInput([node], [schema], req);
    OneRowGroup(schema, node, req);
    StrayOrder();
    WrittenTwice(map["A" := map[0 := 0]], Visit("A", 0, "ID_LEN"), Visit("A", 7, "NOT_NULL"));
    hide Input.Grouped, NodeHead, VisitOrder, Written;
    assert input.Name(0) == "A" && input.Local(0) == 0;
  }

  /** utils.Find takes the first schema of a name. */
  lemma {:induction false} FirstSchemaIsFound(schemas: seq<Schema>, i: nat)
    requires i < |schemas| && forall j :: 0 <= j < i ==> schemas[j].name != schemas[i].name
    ensures FindSchema(schemas, schemas[i].name) == Some(schemas[i])
  {
    if i > 0 {
      FirstSchemaIsFound(schemas[1..], i - 1);
    }
  }

  /** A row converts under that schema, and names the one that is missing. */
  lemma RowConvertsUnderItsSchema<R>(input: Input<R>, g: nat, i: nat)
    requires g < |input.rows|
    ensures (forall s :: s in input.schemas ==> s.name != input.Name(g)) ==>
      input.Converted(g) == Err(SchemaNotFound(input.schemaOf(input.rows[g])))
    ensures i < |input.schemas| && input.schemas[i].name == input.Name(g)
            && (forall j :: 0 <= j < i ==> input.schemas[j].name != input.Name(g)) ==>
      input.Converted(g) == input.convert(input.schemas[i], input.rows[g])
  {
    if i < |input.schemas| && input.schemas[i].name == input.Name(g)
       && (forall j :: 0 <= j < i ==> input.schemas[j].name != input.Name(g))
    {
      FirstSchemaIsFound(input.schemas, i);
    }
  }
}
