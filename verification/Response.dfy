// Reading a query's record stream: NewUQLResponse (sdk/http/response.query.go) folds it into one
// reply, Recv (sdk/http/responseStream.go) hands each record to a callback; Alias and AsNodes then
// read an alias out of a reply (sdk/utils/merge.reply.go, sdk/http/dataitem.go).
module Response {
  import opened Base
  import opened Codec
  import opened Rows
  import opened Reply
  import opened ReplyLaws

  datatype DataItem = DataItem(kind: ResultType, data: Option<Entry>)

  datatype DataError = WrongKind | Undecodable(error: CodecError) | DataPanic

  // ---- reading an alias ----

  /** The loop of FindAliasDataInReply from alias `i` on, with the type seen last. */
  function FindFrom(v: ReplyView, name: string, i: nat, kind: ResultType): DataItem
    requires i <= |v.aliases|
    decreases |v.aliases| - i
  {
    if i == |v.aliases| then DataItem(kind, None)
    else
      var k := v.aliases[i].kind;
      if k != UnsetResult && k in v.sections && FindIndex(v.sections[k], name) < |v.sections[k]|
      then DataItem(k, Some(v.sections[k][FindIndex(v.sections[k], name)]))
      else FindFrom(v, name, i + 1, k)
  }

  /** FindAliasDataInReply: the type of the alias list's own entry plays no part in the search. */
  function AliasData(v: ReplyView, name: string): DataItem {
    if exists a :: a in v.aliases && a.name == name then FindFrom(v, name, 0, UnsetResult)
    else DataItem(UnsetResult, None)
  }

  method FindAliasDataInReply(reply: QueryReply, name: string, ghost v: ReplyView) returns (kind: ResultType,
          data: AliasEntry?)
    requires reply.Shows(v)
    ensures AliasData(v, name) == DataItem(kind, if data == null then None else Some(data.View()))
  {
    kind, data := UnsetResult, null;
    var known := CheckAliasExist(reply.aliases, name);
    if !known {
      return;
    }
    var i := 0;
    while i < |reply.aliases|
      invariant 0 <= i <= |reply.aliases|
      invariant data == null && FindFrom(v, name, i, kind) == AliasData(v, name)
    {
      var k := reply.aliases[i].kind;
      if k != UnsetResult && k in reply.sections {
        var j := FindEntry(reply.sections[k], name, v.sections[k]);
        if j < |reply.sections[k]| {
          assert reply.sections[k][j].View() == v.sections[k][j];
          return k, reply.sections[k][j];
        }
      }
      kind := k;
      i := i + 1;
    }
  }

  method CheckAliasExist(aliases: seq<ResultAlias>, name: string) returns (found: bool)
    ensures found <==> exists a :: a in aliases && a.name == name
  {
    for i := 0 to |aliases|
      invariant forall j :: 0 <= j < i ==> aliases[j].name != name
    {
      if aliases[i].name == name {
        return true;
      }
    }
    found := false;
  }

  /** The entity rows of an entry; node and edge sections hold nothing else. */
  function EntityRows(items: seq<Item>): seq<EntityRow> {
    if items == [] then []
    else
      var front, last := EntityRows(items[..|items| - 1]), items[|items| - 1];
      if last.Entity? then front + [last.row] else front
  }

  /** AsNodes and AsEdges. */
  function AsEntities<T>(item: DataItem, kind: ResultType, make: (EntityRow, Values) -> T): Result<seq<T>, DataError>
  {
    if item.data.None? || item.kind == UnsetResult then Ok([])
    else if item.kind != kind && item.kind != AttrResult then Err(WrongKind)
    else if item.kind == AttrResult || item.data.value.payload.None? then Err(DataPanic)
    else
      match DecodeRows(item.data.value.schemas, EntityRows(item.data.value.payload.value), make)
      case Err(e) => Err(Undecodable(e))
      case Ok(entities) => Ok(entities)
  }

  // ---- the two readers of a stream ----

  /** A message; `parses` says whether its statistics table can be read. */
  datatype Record = Record(view: ReplyView, status: Option<Status>, parses: bool)

  predicate Failed(r: Record) {
    r.status.Some? && !r.status.value.success
  }

  /** How many records are read: everything up to the first failure, that one included. */
  function RecordsRead(records: seq<Record>): (n: nat)
    ensures n <= |records|
    ensures forall i :: 0 <= i < n - 1 ==> !Failed(records[i])
    ensures n < |records| ==> n > 0 && Failed(records[n - 1])
    ensures records != [] ==> n > 0
  {
    if records == [] then 0
    else if Failed(records[0]) then 1
    else 1 + RecordsRead(records[1..])
  }

  function ViewsOf(records: seq<Record>): (vs: seq<ReplyView>)
    ensures |vs| == |records|
    ensures forall i :: 0 <= i < |records| ==> vs[i] == records[i].view
  {
    seq(|records|, i requires 0 <= i < |records| => records[i].view)
  }

  function AliasNames(aliases: seq<ResultAlias>): (r: seq<string>)
    ensures |r| == |aliases| && forall i :: 0 <= i < |aliases| ==> r[i] == aliases[i].name
  {
    seq(|aliases|, i requires 0 <= i < |aliases| => aliases[i].name)
  }

  method AliasListOf(aliases: seq<ResultAlias>) returns (r: seq<string>)
    ensures r == AliasNames(aliases)
  {
    r := [];
    for i := 0 to |aliases|
      invariant |r| == i && forall j :: 0 <= j < i ==> r[j] == aliases[j].name
    {
      r := r + [aliases[i].name];
    }
  }

  method NewEntries(vs: seq<Entry>) returns (es: seq<AliasEntry>)
    ensures fresh(es) && Distinct(es) && |es| == |vs|
    ensures forall i :: 0 <= i < |vs| ==> es[i].View() == vs[i]
  {
    es := [];
    for i := 0 to |vs|
      invariant |es| == i && fresh(es) && Distinct(es)
      invariant forall j :: 0 <= j < i ==> es[j].View() == vs[j]
    {
      var e := new AliasEntry(vs[i].alias, vs[i].schemas, vs[i].payload);
      DistinctSnoc(es, e);
      es := es + [e];
    }
  }

  ghost function Objects(reply: QueryReply?): set<object>
    reads reply
  {
    if reply == null then {} else {reply} + set e | e in reply.Repr() :: e as object
  }

  /** One more section of new entries. */
  lemma SoundWith(sections: Sections, k: ResultType, es: seq<AliasEntry>)
    requires Sound(sections) && k !in sections && Distinct(es)
    requires forall k', e :: k' in sections && e in sections[k'] ==> e !in es
    ensures Sound(sections[k := es])
  {
    assert RepeatsHidden(es);
    hide RepeatsHidden;
  }

  /** A received message is a new object with new entries. */
  method NewReply(v: ReplyView, status: Option<Status>) returns (r: QueryReply)
    ensures fresh(Objects(r)) && r.Valid() && r.Shows(v) && r.View() == v && r.status == status
  {
    var sections: Sections := map[];
    var todo := v.sections.Keys;
    assert Sound(sections);
    hide Sound, Distinct, AliasEntry.View;
    while todo != {}
      invariant todo <= v.sections.Keys && sections.Keys == v.sections.Keys - todo && Sound(sections)
      invariant forall k :: k in sections ==> fresh(sections[k]) && |sections[k]| == |v.sections[k]|
      invariant forall k, i :: k in sections && 0 <= i < |sections[k]| ==> sections[k][i].View() == v.sections[k][i]
    {
      var k :| k in todo;
      var es := NewEntries(v.sections[k]);
      SoundWith(sections, k, es);
      sections := sections[k := es];
      todo := todo - {k};
    }
    r := new QueryReply(v.aliases, status, sections);
    r.ShownView(v);
  }

  /** The client side of a query stream, which ends with io.EOF or, when broken, with another error. */
  class QueryClient {
    const records: seq<Record>
    const broken: bool
    var next: nat

    constructor (records: seq<Record>, broken: bool)
      ensures this.records == records && this.broken == broken && next == 0
    {
      this.records, this.broken, next := records, broken, 0;
    }

    /** Recv: the next message, or null with the error that ends the stream. */
    method Receive() returns (reply: QueryReply?)
      requires next <= |records|
      modifies this
      ensures reply == null <==> old(next) == |records|
      ensures reply == null ==> next == old(next)
      ensures reply != null ==> next == old(next) + 1 <= |records|
      ensures reply != null ==> fresh(Objects(reply)) && reply.Valid()
      ensures reply != null ==> reply.Shows(records[next - 1].view) && reply.View() == records[next - 1].view
      ensures reply != null ==> reply.status == records[next - 1].status
    {
      hide Objects, QueryReply.Shows, QueryReply.Valid, QueryReply.View;
      if next == |records| {
        return null;
      }
      next := next + 1;
      reply := NewReply(records[next - 1].view, records[next - 1].status);
    }
  }

  lemma FoldSnoc(vs: seq<ReplyView>, i: nat)
    requires i < |vs|
    ensures i == 0 ==> Fold(vs[..i + 1]) == vs[0]
    ensures i > 0 ==> Fold(vs[..i + 1]) == Merge(Fold(vs[..i]), vs[i])
  {
    assert vs[..i + 1][..i] == vs[..i];
  }

  /** The reply holds the fold of the records read so far. */
  ghost predicate Folded(reply: QueryReply?, records: seq<Record>, n: nat)
    requires n <= |records|
    reads reply, Objects(reply)
  {
    if reply == null then n == 0
    else
      assert forall e :: e in reply.Repr() ==> e as object in Objects(reply);
      n > 0 && reply.Valid() && reply.Shows(Fold(ViewsOf(records)[..n]))
  }

  ghost predicate Mergeable(records: seq<Record>) {
    forall r :: r in records ==> TablesPresent(r.view)
  }

  lemma FoldedShows(reply: QueryReply, records: seq<Record>, n: nat)
    requires n <= |records| && Folded(reply, records, n)
    ensures n > 0 && reply.View() == Fold(ViewsOf(records)[..n])
    ensures reply.aliases == Fold(ViewsOf(records)[..n]).aliases
  {
    reply.ShownView(Fold(ViewsOf(records)[..n]));
  }

  /** One record is read and becomes the reply or is merged into it. */
  method FoldRecord(reply: QueryReply?, record: QueryReply, ghost records: seq<Record>,
          ghost n: nat) returns (r: QueryReply)
    requires n < |records| && Mergeable(records) && Folded(reply, records, n)
    requires record.Valid() && record.Shows(records[n].view)
    requires Objects(reply) !! Objects(record)
    modifies Objects(reply), Objects(record)
    ensures Folded(r, records, n + 1)
    ensures Objects(r) <= old(Objects(reply) + Objects(record))
  {
    hide QueryReply.Valid, QueryReply.View;
    ghost var vs := ViewsOf(records);
    FoldSnoc(vs, n);
    if reply == null {
      r := record;
    } else {
      FoldTables(vs[..n]);
      reply.ShownView(Fold(vs[..n]));
      record.ShownView(vs[n]);
      assert records[n] in records;
      assert forall e :: e in reply.Repr() ==> e as object in Objects(reply);
      assert forall e :: e in record.Repr() ==> e as object in Objects(record);
      hide TablesPresent, Fold, Merge;
      r := MergeUQLReply(reply, record);
      assert r.Shows(r.View());
    }
  }

  /** The status is that of the last of the first `n` records that has one, and success before that. */
  ghost predicate LatestStatus(records: seq<Record>, n: nat, status: Status)
    requires n <= |records|
  {
    && (forall i :: 0 <= i < n && records[i].status.Some? && (forall j :: i < j < n ==> records[j].status.None?) ==>
          status == records[i].status.value)
    && ((forall i :: 0 <= i < n ==> records[i].status.None?) ==> status == Status(true, ""))
  }

  lemma StatusStep(records: seq<Record>, n: nat, status: Status)
    requires n < |records| && LatestStatus(records, n, status)
    ensures LatestStatus(records, n + 1, if records[n].status.Some? then records[n].status.value else status)
  {
  }

  /** NewUQLResponse returns an error: the first record's statistics cannot be read (later ones are not
      looked at), or the stream breaks before any record failed. */
  predicate CollectFails(records: seq<Record>, broken: bool) {
    || (records != [] && !records[0].parses)
    || (broken && (records == [] || !Failed(records[RecordsRead(records) - 1])))
  }

  lemma StopsAt(records: seq<Record>, n: nat)
    requires 0 < n <= |records| && forall i :: 0 <= i < n - 1 ==> !Failed(records[i])
    requires n == |records| || Failed(records[n - 1])
    ensures RecordsRead(records) == n
  {
  }

  /** `n` records were read without a failure. */
  ghost predicate Progress(records: seq<Record>, n: nat, status: Status)
    requires n <= |records|
  {
    && LatestStatus(records, n, status) && status.success && (forall i :: 0 <= i < n ==> !Failed(records[i]))
    && (n > 0 ==> records[0].parses)
  }

  /** How the collecting loop may stop after `n` records. */
  ghost predicate Outcome(records: seq<Record>, broken: bool, err: bool, n: nat, status: Status)
    requires n <= |records|
  {
    && (err <==> CollectFails(records, broken))
    && (!err ==> 0 < n == RecordsRead(records) && LatestStatus(records, n, status)
                 && (status.success <==> !Failed(records[n - 1])))
  }

  lemma NextSucceeds(records: seq<Record>, n: nat, status: Status, next: Status)
    requires n < |records| && Progress(records, n, status) && (n > 0 || records[0].parses)
    requires LatestStatus(records, n + 1, next) && next.success && !Failed(records[n])
    ensures Progress(records, n + 1, next)
  {
    hide LatestStatus, Failed;
  }

  lemma NextFails(records: seq<Record>, n: nat, status: Status, next: Status, broken: bool)
    requires n < |records| && Progress(records, n, status) && (n > 0 || records[0].parses)
    requires LatestStatus(records, n + 1, next) && !next.success && Failed(records[n])
    ensures Outcome(records, broken, false, n + 1, next)
  {
    hide LatestStatus, Failed, RecordsRead;
    StopsAt(records, n + 1);
  }

  /** One more record that can be read, or a first one that cannot. */
  lemma ProgressStep(records: seq<Record>, n: nat, status: Status, broken: bool)
    requires n < |records| && Progress(records, n, status)
    ensures n == 0 && !records[0].parses ==> Outcome(records, broken, true, 1, status)
    ensures var next := if records[n].status.Some? then records[n].status.value else status;
      n > 0 || records[0].parses ==>
        if next.success then Progress(records, n + 1, next) else Outcome(records, broken, false, n + 1, next)
  {
    var next := if records[n].status.Some? then records[n].status.value else status;
    StatusStep(records, n, status);
    assert status.success && (Failed(records[n]) <==> !next.success);
    hide LatestStatus, RecordsRead, Failed, Progress;
    if n > 0 || records[0].parses {
      hide CollectFails, Outcome;
      if next.success {
        NextSucceeds(records, n, status, next);
      } else {
        NextFails(records, n, status, next, broken);
      }
    }
  }

  lemma ProgressEnds(records: seq<Record>, status: Status, broken: bool)
    requires Progress(records, |records|, status) && (records != [] || broken)
    ensures Outcome(records, broken, broken, |records|, status)
  {
    if records != [] {
      StopsAt(records, |records|);
    }
  }

  /** The next record, unless the stream has ended, is read and folded, unless it is the first and cannot be
      read. */
  method ReadRecord(client: QueryClient, reply: QueryReply?)
      returns (ended: bool, unreadable: bool, r: QueryReply?, status: Option<Status>)
    requires client.next <= |client.records| && Mergeable(client.records)
    requires Folded(reply, client.records, client.next) && (reply == null <==> client.next == 0)
    requires client as object !in Objects(reply)
    modifies client, Objects(reply)
    ensures ended <==> old(client.next) == |client.records|
    ensures client.next == if ended then old(client.next) else old(client.next) + 1
    ensures forall o :: o in Objects(r) ==> o in old(Objects(reply)) || fresh(o)
    ensures ended ==> r == reply && Folded(r, client.records, client.next)
    ensures !ended ==> (unreadable <==> client.next == 1 && !client.records[0].parses)
    ensures !ended && !unreadable ==> r != null && Folded(r, client.records, client.next)
    ensures !ended && !unreadable ==> status == client.records[client.next - 1].status
  {
    hide Mergeable, QueryReply.Shows, QueryReply.Valid, QueryReply.View, Fold, Merge, Folded;
    ghost var n := client.next;
    ended, unreadable, r, status := false, false, reply, None;
    var record := client.Receive();
    assert Folded(reply, client.records, n);
    if record == null {
      ended := true;
      return;
    }
    if reply == null && !client.records[client.next - 1].parses {
      unreadable := true;
      return;
    }
    status := record.status;
    r := FoldRecord(reply, record, client.records, n);
  }

  /** The body of the fold loop; `stop` when the loop is left. */
  method FoldNext(client: QueryClient, reply: QueryReply?, before: Status)
      returns (stop: bool, err: bool, r: QueryReply?, status: Status)
    requires client.next <= |client.records| && Mergeable(client.records) && (client.records != [] || client.broken)
    requires Folded(reply, client.records, client.next) && (reply == null <==> client.next == 0)
    requires client as object !in Objects(reply) && Progress(client.records, client.next, before)
    modifies client, Objects(reply)
    ensures client.next <= |client.records| && (!stop ==> client.next == old(client.next) + 1)
    ensures forall o :: o in Objects(r) ==> o in old(Objects(reply)) || fresh(o)
    ensures !err ==> r != null && Folded(r, client.records, client.next)
    ensures stop ==> Outcome(client.records, client.broken, err, client.next, status)
    ensures !stop ==> !err && Progress(client.records, client.next, status)
  {
    hide *;
    ghost var n := client.next;
    stop, err, status := true, true, before;
    var ended, unreadable, last;
    ended, unreadable, r, last := ReadRecord(client, reply);
    if ended {
      ProgressEnds(client.records, status, client.broken);
      err := client.broken;
      return;
    }
    ProgressStep(client.records, n, status, client.broken);
    if unreadable {
      return;
    }
    if last.Some? {
      status := last.value;
    }
    stop, err := !status.success, false;
  }

  /** The fold loop of NewUQLResponse. */
  method CollectRecords(client: QueryClient) returns (err: bool, reply: QueryReply?, status: Status)
    requires client.next == 0 && (client.records != [] || client.broken) && Mergeable(client.records)
    modifies client
    ensures client.next <= |client.records| && Outcome(client.records, client.broken, err, client.next, status)
    ensures !err ==> reply != null && fresh(Objects(reply)) && Folded(reply, client.records, client.next)
  {
    err, reply, status := false, null, Status(true, "");
    var stop := false;
    assert Folded(reply, client.records, 0) && Progress(client.records, 0, status) && Objects(reply) == {};
    hide *;
    while !stop
      invariant client.next <= |client.records| && fresh(Objects(reply))
      invariant !err ==> Folded(reply, client.records, client.next)
      invariant stop ==> Outcome(client.records, client.broken, err, client.next, status)
      invariant stop && !err ==> reply != null
      invariant !stop ==>
        !err && Progress(client.records, client.next, status) && (reply == null <==> client.next == 0)
      decreases !stop, |client.records| - client.next
    {
      stop, err, reply, status := FoldNext(client, reply, status);
    }
  }

  /** NewUQLResponse; an empty stream that ends well would leave a nil reply to dereference. */
  method NewUQLResponse(client: QueryClient)
      returns (err: bool, reply: QueryReply?, status: Status, aliasList: seq<string>)
    requires client.next == 0 && (client.records != [] || client.broken) && Mergeable(client.records)
    modifies client
    ensures err <==> CollectFails(client.records, client.broken)
    ensures !err ==> reply != null && RecordsRead(client.records) > 0
    ensures !err ==> reply.View() == Fold(ViewsOf(client.records)[..RecordsRead(client.records)])
    ensures !err ==> LatestStatus(client.records, RecordsRead(client.records), status)
    ensures !err ==> (status.success <==> !Failed(client.records[RecordsRead(client.records) - 1]))
    ensures !err && status.success ==> aliasList == AliasNames(Fold(ViewsOf(client.records)).aliases)
    ensures !err && !status.success ==> aliasList == []
  {
    hide Mergeable, QueryReply.Shows, QueryReply.Valid, QueryReply.View, Fold, Merge, AliasNames, CollectFails,
      Failed, LatestStatus, Folded;
    aliasList := [];
    err, reply, status := CollectRecords(client);
    if err {
      return;
    }
    FoldedShows(reply, client.records, client.next);
    if !status.success {
      return;
    }
    assert ViewsOf(client.records)[..|client.records|] == ViewsOf(client.records);
    aliasList := AliasListOf(reply.aliases);
  }

  /** Recv does not hand this record to its callback. */
  predicate Refused(r: Record) {
    !r.parses || Failed(r)
  }

  /** How many records a streaming reader hands to its callback: it stops before a record that fails
      or cannot be read, and after a call the callback rejects. */
  function Delivered(records: seq<Record>, accepts: nat -> bool, from: nat): (n: nat)
    requires from <= |records|
    ensures from <= n <= |records|
    decreases |records| - from
  {
    if from == |records| || Refused(records[from]) then from
    else if !accepts(from) then from + 1
    else Delivered(records, accepts, from + 1)
  }

  ghost predicate Passed(records: seq<Record>, accepts: nat -> bool, n: nat)
    requires n <= |records|
  {
    forall i :: 0 <= i < n ==> !Refused(records[i]) && accepts(i)
  }

  lemma DeliveredStep(records: seq<Record>, accepts: nat -> bool, i: nat)
    requires i < |records|
    ensures Refused(records[i]) <==> !records[i].parses || (records[i].status.Some? && !records[i].status.value.success)
    ensures Delivered(records, accepts, i) ==
      if Refused(records[i]) then i else if !accepts(i) then i + 1 else Delivered(records, accepts, i + 1)
    ensures !Passed(records, accepts, |records|) || (!Refused(records[i]) && accepts(i))
    ensures Passed(records, accepts, i + 1) <==> Passed(records, accepts, i) && !Refused(records[i]) && accepts(i)
  {
  }

  lemma SeenStep(records: seq<Record>, i: nat)
    requires i < |records|
    ensures ViewsOf(records)[..i + 1] == ViewsOf(records)[..i] + [records[i].view]
  {
  }

  lemma DeliveredAll(records: seq<Record>, accepts: nat -> bool)
    ensures Delivered(records, accepts, |records|) == |records|
  {
  }

  /** Recv: `accepts(i)` is the callback's verdict on its call number `i`, and `seen` what it was shown. */
  method Recv(client: QueryClient, accepts: nat -> bool) returns (calls: nat, ok: bool, ghost seen: seq<ReplyView>)
    requires client.next == 0
    modifies client
    ensures calls == Delivered(client.records, accepts, 0)
    ensures seen == ViewsOf(client.records)[..calls]
    ensures ok <==> !client.broken && Passed(client.records, accepts, |client.records|)
  {
    calls, ok, seen := 0, true, [];
    while true
      invariant client.next == calls <= |client.records|
      invariant seen == ViewsOf(client.records)[..calls]
      invariant Passed(client.records, accepts, calls)
      invariant Delivered(client.records, accepts, calls) == Delivered(client.records, accepts, 0)
      decreases |client.records| - client.next
    {
      hide QueryReply.Shows, QueryReply.Valid, QueryReply.View, Passed, Delivered, Failed, Refused, Objects, ViewsOf;
      DeliveredAll(client.records, accepts);
      var record := client.Receive();
      if record == null {
        ok := !client.broken;
        return;
      }
      DeliveredStep(client.records, accepts, calls);
      if !client.records[client.next - 1].parses {
        ok := false;
        return;
      }
      if record.status.Some? && !record.status.value.success {
        ok := false;
        return;
      }
      SeenStep(client.records, calls);
      seen := seen + [record.View()];
      calls := calls + 1;
      if !accepts(calls - 1) {
        ok := false;
        return;
      }
    }
  }
}
