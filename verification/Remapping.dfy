// The errors the server reports per batch, and how they are mapped back to the caller's row numbers
// (sdk/http/response.insert.go, sdk/api/insert.nodes.go, insert.edges.go).
module Remapping {
  import opened Base
  import opened Batches

  // ---- what the server reports per batch ----

  /** InsertErrorCodeMsgMap2; a code it misses gives Go's empty string. */
  function CodeName(code: nat): string {
    match code
    case 10001 => "ID_NOT_MATCH_UUID"
    case 10002 => "ID_UUID_NOT_MATCH_SCHEMA"
    case 10003 => "FROM_ID_NOT_EXISTED"
    case 10004 => "TO_ID_NOT_EXISTED"
    case 10005 => "ID_LEN"
    case 10006 => "NOT_NULL"
    case 10007 => "UNIQUCHECK"
    case 10008 => "ID_EMPTY"
    case 10009 => "FROM_ID_EMPTY"
    case 10010 => "TO_ID_EMPTY"
    case 10011 => "DUPLICATE_ID"
    case 10012 => "KEY_CONSTRAINT_VIOLATED"
    case 11001 => "OK_BUT_ID_EXISTED"
    case 19999 => "OTHERS"
    case _ => ""
  }

  /** InsertErrorCodeMsgMap3, the table from names to codes. */
  function CodeOf(name: string): Option<nat> {
    if name == "ID_NOT_MATCH_UUID" then Some(10001) else if name == "ID_UUID_NOT_MATCH_SCHEMA" then Some(10002)
    else if name == "FROM_ID_NOT_EXISTED" then Some(10003) else if name == "TO_ID_NOT_EXISTED" then Some(10004)
    else if name == "ID_LEN" then Some(10005) else if name == "NOT_NULL" then Some(10006)
    else if name == "UNIQUCHECK" then Some(10007) else if name == "ID_EMPTY" then Some(10008)
    else if name == "FROM_ID_EMPTY" then Some(10009) else if name == "TO_ID_EMPTY" then Some(10010)
    else if name == "DUPLICATE_ID" then Some(10011) else if name == "KEY_CONSTRAINT_VIOLATED" then Some(10012)
    else if name == "OK_BUT_ID_EXISTED" then Some(11001) else if name == "OTHERS" then Some(19999) else None
  }

  /** The two tables undo each other on exactly fourteen codes; any other code has no name. */
  lemma CodesAreNamed(code: nat)
    ensures 10001 <= code <= 10012 || code == 11001 || code == 19999 ==> CodeOf(CodeName(code)) == Some(code)
    ensures !(10001 <= code <= 10012 || code == 11001 || code == 19999) ==> CodeName(code) == "" && CodeOf("") == None
  {
  }

  lemma NamesAreCoded(name: string)
    ensures CodeOf(name).Some? ==> CodeName(CodeOf(name).value) == name
  {
  }

  datatype InsertReply = InsertReply(ignoreIndexes: seq<nat>, ignoreErrorCode: seq<nat>,
                                     timeCost: int, engineTimeCost: int)

  datatype InsertResponse = InsertResponse(errorItems: map<nat, string>, totalCost: int, engineCost: int)

  /** Item `i` is the last report of its index among the first `n`. */
  predicate LastReport(indexes: seq<nat>, i: nat, n: nat)
    requires i < n <= |indexes|
  {
    forall j :: i < j < n ==> indexes[j] != indexes[i]
  }

  /** Exactly the first `n` indexes are keys. */
  ghost predicate KeysOf(indexes: seq<nat>, n: nat, items: map<nat, string>)
    requires n <= |indexes|
  {
    forall v :: v in items <==> v in indexes[..n]
  }

  /** An index that is a key carries the name of the code reported for it last. */
  ghost predicate LastNames(indexes: seq<nat>, codes: seq<nat>, n: nat, items: map<nat, string>)
    requires n <= |indexes| && n <= |codes|
  {
    forall i :: 0 <= i < n && LastReport(indexes, i, n) && indexes[i] in items ==>
      items[indexes[i]] == CodeName(codes[i])
  }

  /** The reported indexes, each with the name of the code reported for it last. */
  ghost predicate Reports(reply: InsertReply, n: nat, items: map<nat, string>)
    requires n <= |reply.ignoreIndexes| && n <= |reply.ignoreErrorCode|
  {
    KeysOf(reply.ignoreIndexes, n, items) && LastNames(reply.ignoreIndexes, reply.ignoreErrorCode, n, items)
  }

  lemma KeysStep(indexes: seq<nat>, n: nat, items: map<nat, string>, name: string)
    requires n < |indexes| && KeysOf(indexes, n, items)
    ensures KeysOf(indexes, n + 1, items[indexes[n] := name])
  {
    assert indexes[..n + 1] == indexes[..n] + [indexes[n]];
  }

  /** One more item: it is the last report of its index, and of no other. */
  lemma NamesStep(indexes: seq<nat>, codes: seq<nat>, n: nat, items: map<nat, string>)
    requires n < |indexes| && n < |codes| && LastNames(indexes, codes, n, items)
    ensures LastNames(indexes, codes, n + 1, items[indexes[n] := CodeName(codes[n])])
  {
    hide CodeName;
    forall i | 0 <= i < n && LastReport(indexes, i, n + 1)
      ensures LastReport(indexes, i, n) && indexes[i] != indexes[n]
    {
    }
  }

  method CollectItems(reply: InsertReply) returns (items: map<nat, string>)
    requires |reply.ignoreIndexes| <= |reply.ignoreErrorCode|
    ensures Reports(reply, |reply.ignoreIndexes|, items)
  {
    items := map[];
    assert Reports(reply, 0, items);
    hide KeysOf, LastNames, CodeName;
    for i := 0 to |reply.ignoreIndexes|
      invariant Reports(reply, i, items)
    {
      KeysStep(reply.ignoreIndexes, i, items, CodeName(reply.ignoreErrorCode[i]));
      NamesStep(reply.ignoreIndexes, reply.ignoreErrorCode, i, items);
      items := items[reply.ignoreIndexes[i] := CodeName(reply.ignoreErrorCode[i])];
    }
  }

  /** NewNodesInsertResponse: reports of unequal lengths are dropped. */
  method NewNodesInsertResponse(reply: InsertReply) returns (r: InsertResponse)
    ensures r.totalCost == reply.timeCost && r.engineCost == reply.engineTimeCost
    ensures |reply.ignoreIndexes| != |reply.ignoreErrorCode| ==> r.errorItems == map[]
    ensures |reply.ignoreIndexes| == |reply.ignoreErrorCode| ==> Reports(reply, |reply.ignoreIndexes|, r.errorItems)
  {
    r := InsertResponse(map[], reply.timeCost, reply.engineTimeCost);
    if |reply.ignoreIndexes| != |reply.ignoreErrorCode| {
      return;
    }
    var items := CollectItems(reply);
    r := r.(errorItems := items);
  }

  /** NewEdgesInsertResponse has no such check: too few codes index out of range, modelled as None. */
  method NewEdgesInsertResponse(reply: InsertReply) returns (r: Option<InsertResponse>)
    ensures r.None? <==> |reply.ignoreErrorCode| < |reply.ignoreIndexes|
    ensures r.Some? ==> r.value.totalCost == reply.timeCost && r.value.engineCost == reply.engineTimeCost
    ensures r.Some? ==> Reports(reply, |reply.ignoreIndexes|, r.value.errorItems)
  {
    if |reply.ignoreErrorCode| < |reply.ignoreIndexes| {
      return None;
    }
    var items := CollectItems(reply);
    r := Some(InsertResponse(items, reply.timeCost, reply.engineTimeCost));
  }

  // ---- back to the caller's row numbers ----

  type Responses = map<string, InsertResponse>

  /** Where a reported local index is written: a Go map lookup that misses gives 0. */
  function Target(m: IndexMap, name: string, k: nat): nat {
    if name in m && k in m[name] then m[name][k] else 0
  }

  function TotalCosts(responses: Responses): map<string, int> {
    map name | name in responses :: responses[name].totalCost
  }

  function EngineCosts(responses: Responses): map<string, int> {
    map name | name in responses :: responses[name].engineCost
  }

  /** Each report is a schema name and a local index. */
  ghost predicate Reported(responses: Responses, name: string, k: nat) {
    name in responses && k in responses[name].errorItems
  }

  /** One report as the remapping loops meet it. */
  datatype Visit = Visit(name: string, index: nat, message: string)

  /** `order` lists the items of one batch, each once. */
  ghost predicate BatchVisits(name: string, items: map<nat, string>, order: seq<Visit>) {
    && Distinct(order)
    && (forall v :: v in order ==> v.name == name && v.index in items && v.message == items[v.index])
    && (forall k :: k in items ==> Visit(name, k, items[k]) in order)
  }

  /** Visits of one batch are not interrupted by those of another. */
  ghost predicate BatchByBatch(order: seq<Visit>) {
    forall i, j, l :: 0 <= i < j < l < |order| && order[i].name == order[l].name ==> order[j].name == order[i].name
  }

  /** `order` visits every report once, batch by batch: what two nested loops over Go maps may do. */
  ghost predicate VisitOrder(responses: Responses, order: seq<Visit>) {
    && Distinct(order) && BatchByBatch(order)
    && (forall v :: v in order ==>
          Reported(responses, v.name, v.index) && v.message == responses[v.name].errorItems[v.index])
    && (forall name, k :: Reported(responses, name, k) ==> Visit(name, k, responses[name].errorItems[k]) in order)
  }

  /** The error map after the visits: each writes its message at its target. */
  function Written(m: IndexMap, order: seq<Visit>): map<nat, string> {
    if order == [] then map[]
    else
      var v := order[|order| - 1];
      Written(m, order[..|order| - 1])[Target(m, v.name, v.index) := v.message]
  }

  lemma WrittenSnoc(m: IndexMap, order: seq<Visit>, v: Visit)
    ensures Written(m, order + [v]) == Written(m, order)[Target(m, v.name, v.index) := v.message]
  {
    assert (order + [v])[..|order|] == order;
  }

  /** What some order of all reports writes. */
  ghost predicate WrittenInSomeOrder(m: IndexMap, responses: Responses, errorItem: map<nat, string>) {
    exists order :: VisitOrder(responses, order) && errorItem == Written(m, order)
  }

  /** The second loop of InsertNodesBatchAuto after the requests: batches are visited in any order, and
      the items of a batch in any order. */
  method RemapErrors(m: IndexMap, responses: Responses)
    returns (errorItem: map<nat, string>, totalCost: int, engineCost: int)
    ensures WrittenInSomeOrder(m, responses, errorItem)
    ensures totalCost == SumOver(TotalCosts(responses)) && engineCost == SumOver(EngineCosts(responses))
  {
    errorItem, totalCost, engineCost := map[], 0, 0;
    ghost var order: seq<Visit> := [];
    var todo := responses.Keys;
    ghost var done: Responses := map[];
    assert TotalCosts(done) == map[] && EngineCosts(done) == map[] && VisitOrder(done, order);
    assert responses - responses.Keys == map[];
    hide SumOver, VisitOrder, TotalCosts, EngineCosts;
    while todo != {}
      invariant todo <= responses.Keys && done == responses - todo
      invariant VisitOrder(done, order) && errorItem == Written(m, order)
      invariant totalCost == SumOver(TotalCosts(done)) && engineCost == SumOver(EngineCosts(done))
    {
      var name :| name in todo;
      OneKeyLess(responses, todo, name);
      CostsStep(done, name, responses[name]);
      errorItem := RemapItems(m, name, responses[name], errorItem, order);
      ghost var mine :| BatchVisits(name, responses[name].errorItems, mine) && errorItem == Written(m, order + mine);
      OneBatchMore(done, order, name, responses[name], mine);
      totalCost := totalCost + responses[name].totalCost;
      engineCost := engineCost + responses[name].engineCost;
      todo, done, order := todo - {name}, done[name := responses[name]], order + mine;
    }
    assert responses - {} == responses;
  }

  lemma CostsStep(done: Responses, name: string, response: InsertResponse)
    requires name !in done
    ensures SumOver(TotalCosts(done[name := response])) == SumOver(TotalCosts(done)) + response.totalCost
    ensures SumOver(EngineCosts(done[name := response])) == SumOver(EngineCosts(done)) + response.engineCost
  {
    SumUpdate(TotalCosts(done), name, response.totalCost);
    SumUpdate(EngineCosts(done), name, response.engineCost);
    assert TotalCosts(done[name := response]) == TotalCosts(done)[name := response.totalCost];
    assert EngineCosts(done[name := response]) == EngineCosts(done)[name := response.engineCost];
  }

  /** What the items of one batch, in some order, write after `order`. */
  ghost predicate WrittenAfter(m: IndexMap, order: seq<Visit>, name: string, items: map<nat, string>,
          errorItem: map<nat, string>)
  {
    exists mine :: BatchVisits(name, items, mine) && errorItem == Written(m, order + mine)
  }

  method RemapItems(m: IndexMap, name: string, response: InsertResponse, before: map<nat, string>,
          ghost order: seq<Visit>)
    returns (errorItem: map<nat, string>)
    requires before == Written(m, order)
    ensures WrittenAfter(m, order, name, response.errorItems, errorItem)
  {
    errorItem := before;
    ghost var mine: seq<Visit> := [];
    var items := response.errorItems;
    var todo := items.Keys;
    assert items - items.Keys == map[] && order + mine == order;
    hide BatchVisits, Written;
    while todo != {}
      invariant todo <= items.Keys
      invariant BatchVisits(name, items - todo, mine) && errorItem == Written(m, order + mine)
    {
      var k :| k in todo;
      var vl := if name in m && k in m[name] then m[name][k] else 0;
      OneKeyLess(items, todo, k);
      OneItemMore(name, items - todo, mine, k, items[k]);
      WrittenSnoc(m, order + mine, Visit(name, k, items[k]));
      assert order + mine + [Visit(name, k, items[k])] == order + (mine + [Visit(name, k, items[k])]);
      errorItem := errorItem[vl := items[k]];
      todo, mine := todo - {k}, mine + [Visit(name, k, items[k])];
    }
    assert items - {} == items;
  }

  lemma OneItemMore(name: string, items: map<nat, string>, order: seq<Visit>, k: nat, message: string)
    requires k !in items && BatchVisits(name, items, order)
    ensures BatchVisits(name, items[k := message], order + [Visit(name, k, message)])
  {
    DistinctSnoc(order, Visit(name, k, message));
  }

  lemma OneBatchMore(done: Responses, order: seq<Visit>, name: string, response: InsertResponse, mine: seq<Visit>)
    requires name !in done && VisitOrder(done, order) && BatchVisits(name, response.errorItems, mine)
    ensures VisitOrder(done[name := response], order + mine)
  {
    var next := done[name := response];
    assert forall v :: v in order ==> v.name != name;
    DistinctJoin(order, mine);
    forall n, k | Reported(next, n, k) ensures Visit(n, k, next[n].errorItems[k]) in order + mine {
      if n != name {
        assert Reported(done, n, k);
      }
    }
    BatchesJoin(order, mine, name);
  }

  lemma DistinctJoin(order: seq<Visit>, mine: seq<Visit>)
    requires Distinct(order) && Distinct(mine) && forall v :: v in order ==> v !in mine
    ensures Distinct(order + mine)
  {
    assert forall i :: 0 <= i < |order| ==> order[i] in order;
    assert forall i :: 0 <= i < |mine| ==> mine[i] in mine;
  }

  lemma BatchesJoin(order: seq<Visit>, mine: seq<Visit>, name: string)
    requires BatchByBatch(order) && forall v :: v in order ==> v.name != name
    requires forall v :: v in mine ==> v.name == name
    ensures BatchByBatch(order + mine)
  {
    assert forall i :: 0 <= i < |order| ==> order[i] in order;
    assert forall i :: 0 <= i < |mine| ==> mine[i] in mine;
  }
}
