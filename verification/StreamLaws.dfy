// Folding a whole stream: what it keeps under every alias, and that reading the folded reply gives
// what reading the records one by one gives.
module StreamLaws {
  import opened Base
  import opened Types
  import opened Codec
  import opened Rows
  import opened Reply
  import opened ReplyLaws
  import opened Response

  /** The rows every record has under an alias, in stream order. */
  function StreamRows(vs: seq<ReplyView>, a: ResultAlias): seq<Item> {
    if vs == [] then [] else StreamRows(vs[..|vs| - 1], a) + RowsOf(vs[|vs| - 1], a)
  }

  /** Every needed section is there, and no nil table is found in it. */
  ghost predicate Has(v: ReplyView, aliases: seq<ResultAlias>) {
    forall a :: a in aliases && a.kind != UnsetResult ==> a.kind in v.sections && !NilPayload(EntryOf(v, a))
  }

  lemma MergeOfWhole(v1: ReplyView, v2: ReplyView)
    requires Distinct(v1.aliases) && Has(v1, v1.aliases) && Has(v2, v1.aliases)
    ensures Merge(v1, v2).aliases == v1.aliases && Has(Merge(v1, v2), v1.aliases)
    ensures forall a :: a in v1.aliases && a.kind != UnsetResult ==>
      EntryOf(Merge(v1, v2), a) == Join(EntryOf(v1, a), EntryOf(v2, a))
  {
    NoGap(v1, v2, 0);
    assert v1.aliases[..|v1.aliases|] == v1.aliases;
    forall a | a in v1.aliases && a.kind != UnsetResult
      ensures EntryOf(Merge(v1, v2), a) == Join(EntryOf(v1, a), EntryOf(v2, a))
      ensures a.kind in Merge(v1, v2).sections && !NilPayload(EntryOf(Merge(v1, v2), a))
    {
      MergeJoins(v1, v2, a);
      JoinRows(EntryOf(v1, a), EntryOf(v2, a));
    }
    MergeJoins(v1, v2, ResultAlias("", NodeResult));
  }

  lemma {:induction false} NoGap(v1: ReplyView, v2: ReplyView, i: nat)
    requires Has(v1, v1.aliases) && Has(v2, v1.aliases) && i <= |v1.aliases|
    ensures FirstGap(v1, v2, i) == |v1.aliases|
    decreases |v1.aliases| - i
  {
    if i < |v1.aliases| {
      assert v1.aliases[i] in v1.aliases;
      NoGap(v1, v2, i + 1);
    }
  }

  lemma OneRecord(v: ReplyView, a: ResultAlias)
    ensures Fold([v]) == v && StreamRows([v], a) == RowsOf(v, a)
  {
    assert [v][..0] == [] && [] + RowsOf(v, a) == RowsOf(v, a);
  }

  /** Folding any number of records leaves, under each alias of the first one, exactly all rows they have
      for it, in order. Later records need the first one's sections; their own alias lists are not read. */
  lemma {:induction false} FoldConcatenates(vs: seq<ReplyView>)
    requires vs != [] && Distinct(vs[0].aliases) && forall v :: v in vs ==> Has(v, vs[0].aliases)
    ensures Fold(vs).aliases == vs[0].aliases && Has(Fold(vs), vs[0].aliases)
    ensures forall a :: a in vs[0].aliases && a.kind != UnsetResult ==> RowsOf(Fold(vs), a) == StreamRows(vs, a)
    decreases |vs|
  {
    hide Has, Merge;
    var n := |vs| - 1;
    assert vs[0] in vs && vs[n] in vs;
    if n == 0 {
      assert vs == [vs[0]];
      forall a ensures StreamRows(vs, a) == RowsOf(vs[0], a) {
        OneRecord(vs[0], a);
      }
    } else {
      FoldConcatenates(vs[..n]);
      MergeOfWhole(Fold(vs[..n]), vs[n]);
      forall a | a in vs[0].aliases && a.kind != UnsetResult ensures RowsOf(Fold(vs), a) == StreamRows(vs, a) {
        WholeHasRows(Fold(vs[..n]), vs[0].aliases, a);
        JoinRows(EntryOf(Fold(vs[..n]), a), EntryOf(vs[n], a));
      }
    }
  }

  lemma WholeHasRows(v: ReplyView, aliases: seq<ResultAlias>, a: ResultAlias)
    requires Has(v, aliases) && a in aliases && a.kind != UnsetResult
    ensures !NilPayload(EntryOf(v, a))
  {
  }

  // ---- exactly when a run loses nothing ----

  ghost predicate DistinctLists(vs: seq<ReplyView>) {
    forall v :: v in vs ==> Distinct(v.aliases)
  }

  lemma MergeChooses(v1: ReplyView, v2: ReplyView, a: ResultAlias)
    requires Distinct(v1.aliases) && a.kind != UnsetResult
    ensures RowsOf(Merge(v1, v2), a) in [RowsOf(v1, a) + RowsOf(v2, a), RowsOf(v1, a), RowsOf(v2, a)]
    ensures Merge(v1, v2).aliases in [v1.aliases, v2.aliases]
  {
    MergeJoins(v1, v2, a);
    JoinRows(EntryOf(v1, a), EntryOf(v2, a));
  }

  /** Every merge of the run keeps the rows of the alias. */
  ghost predicate RunLosesNothing(vs: seq<ReplyView>, a: ResultAlias) {
    forall i :: 0 < i < |vs| ==> Kept(Fold(vs[..i]), vs[i], a)
  }

  /** A run never makes up rows, and once some are gone the total stays short. */
  lemma {:induction false} RunNeverGains(vs: seq<ReplyView>, a: ResultAlias)
    requires vs != [] && DistinctLists(vs) && a.kind != UnsetResult
    ensures Distinct(Fold(vs).aliases)
    ensures |RowsOf(Fold(vs), a)| <= |StreamRows(vs, a)|
    ensures |RowsOf(Fold(vs), a)| == |StreamRows(vs, a)| ==> RowsOf(Fold(vs), a) == StreamRows(vs, a)
    ensures |RowsOf(Fold(vs), a)| == |StreamRows(vs, a)| && |vs| > 1 ==>
      && RowsOf(Fold(vs[..|vs| - 1]), a) == StreamRows(vs[..|vs| - 1], a)
      && RowsOf(Fold(vs), a) == RowsOf(Fold(vs[..|vs| - 1]), a) + RowsOf(vs[|vs| - 1], a)
    decreases |vs|
  {
    hide Distinct, RowsOf, Merge;
    var n := |vs| - 1;
    assert vs[n] in vs;
    if n == 0 {
      assert vs == [vs[0]];
      OneRecord(vs[0], a);
    } else {
      RunNeverGains(vs[..n], a);
      MergeChooses(Fold(vs[..n]), vs[n], a);
      NoRoom(RowsOf(Fold(vs[..n]), a), RowsOf(vs[n], a));
    }
  }

  lemma RunSplits(vs: seq<ReplyView>, a: ResultAlias)
    requires |vs| > 1
    ensures var n := |vs| - 1;
      RunLosesNothing(vs, a) <==> RunLosesNothing(vs[..n], a) && Kept(Fold(vs[..n]), vs[n], a)
  {
    hide Kept, Fold;
    var front := vs[..|vs| - 1];
    assert forall i :: 0 < i < |front| ==> front[..i] == vs[..i] && front[i] == vs[i];
  }

  /** For any alias, and records whose alias lists may differ but do not repeat: the alias ends with all
      its rows, in order, if and only if every single merge kept them. */
  lemma {:induction false} RunConcatenatesExactly(vs: seq<ReplyView>, a: ResultAlias)
    requires vs != [] && DistinctLists(vs) && a.kind != UnsetResult
    ensures RunLosesNothing(vs, a) <==> RowsOf(Fold(vs), a) == StreamRows(vs, a)
    decreases |vs|
  {
    hide Merge, RowsOf, Kept, RunLosesNothing;
    var n := |vs| - 1;
    if n == 0 {
      assert vs == [vs[0]];
      OneRecord(vs[0], a);
      NothingToLose(vs, a);
    } else {
      RunConcatenatesExactly(vs[..n], a);
      KeptExactly(Fold(vs[..n]), vs[n], a);
      RunSplits(vs, a);
      RunNeverGains(vs, a);
    }
  }

  lemma NothingToLose(vs: seq<ReplyView>, a: ResultAlias)
    requires |vs| == 1
    ensures RunLosesNothing(vs, a) && RecordsLoseNothing(vs, a)
  {
  }

  // ---- the same condition, read off the records ----

  /** The record whose sections the folded reply has: a later one replaces it when it has the section the
      first gap is about. */
  function BaseRecord(vs: seq<ReplyView>): (b: nat)
    requires vs != []
    ensures b < |vs|
  {
    var n := |vs| - 1;
    if n == 0 then 0 else if Replaced(vs[BaseRecord(vs[..n])], vs[n]) then n else BaseRecord(vs[..n])
  }

  /** The record's entry that the folded reply's entry of an alias started as. */
  function FirstEntry(vs: seq<ReplyView>, a: ResultAlias): Option<Entry>
    requires vs != []
  {
    var n := |vs| - 1;
    if n == 0 then EntryOf(vs[0], a)
    else
      var base := vs[BaseRecord(vs[..n])];
      if Replaced(base, vs[n]) || (FirstEntry(vs[..n], a).None? && Times(base, vs[n], a, 0) > 0) then EntryOf(vs[n], a)
      else FirstEntry(vs[..n], a)
  }

  /** The last record can be merged without losing rows of the alias. */
  predicate LastKept(vs: seq<ReplyView>, a: ResultAlias)
    requires |vs| > 1
  {
    var n := |vs| - 1;
    var base := vs[BaseRecord(vs[..n])];
    if Replaced(base, vs[n]) then StreamRows(vs[..n], a) == []
    else (Times(base, vs[n], a, 0) == 1 && !NilPayload(FirstEntry(vs[..n], a))) || RowsOf(vs[n], a) == []
  }

  /** Record `i` can be merged into what was read before it. */
  predicate KeptAt(vs: seq<ReplyView>, i: nat, a: ResultAlias)
    requires 0 < i < |vs|
  {
    LastKept(vs[..i + 1], a)
  }

  ghost predicate RecordsLoseNothing(vs: seq<ReplyView>, a: ResultAlias) {
    forall i :: 0 < i < |vs| ==> KeptAt(vs, i, a)
  }

  /** The folded reply has the base record's alias list and sections, and an alias has a nil table exactly
      when the entry it started as has one. */
  lemma {:induction false} FoldShape(vs: seq<ReplyView>, a: ResultAlias)
    requires vs != [] && DistinctLists(vs) && a.kind != UnsetResult
    ensures Fold(vs).aliases == vs[BaseRecord(vs)].aliases
    ensures Fold(vs).sections.Keys == vs[BaseRecord(vs)].sections.Keys
    ensures EntryOf(Fold(vs), a).None? <==> FirstEntry(vs, a).None?
    ensures NilPayload(EntryOf(Fold(vs), a)) <==> NilPayload(FirstEntry(vs, a))
    decreases |vs|
  {
    hide EntryOf, Merge, Times, Replaced;
    var n := |vs| - 1;
    if n > 0 {
      var front := vs[..n];
      var base := vs[BaseRecord(front)];
      assert base in vs;
      FoldShape(front, a);
      SameShape(Fold(front), base, vs[n], a);
      MergeTurns(Fold(front), vs[n], a);
      AtMostOnce(Fold(front), vs[n], a);
      OneTurn(Pair(EntryOf(Fold(front), a), EntryOf(vs[n], a), false));
    }
  }

  lemma OneTurn(p: Pair)
    ensures Turns(p, 0) == p && Turns(p, 1) == p.Turn()
  {
    assert Turns(p, 1) == Turns(p.Turn(), 0);
  }

  lemma AtMostOnce(v1: ReplyView, v2: ReplyView, a: ResultAlias)
    requires Distinct(v1.aliases)
    ensures Times(v1, v2, a, 0) <= 1
  {
    OnceAtMost(v1.aliases, FirstGap(v1, v2, 0), a);
    assert v1.aliases[0..FirstGap(v1, v2, 0)] == v1.aliases[..FirstGap(v1, v2, 0)];
  }

  /** Replies with the same aliases and sections are merged alike. */
  lemma SameShape(v1: ReplyView, w1: ReplyView, v2: ReplyView, a: ResultAlias)
    requires v1.aliases == w1.aliases && v1.sections.Keys == w1.sections.Keys
    ensures Replaced(v1, v2) <==> Replaced(w1, v2)
    ensures Times(v1, v2, a, 0) == Times(w1, v2, a, 0)
  {
    SameGap(v1, w1, v2, v2, 0);
  }

  lemma LastKeptExactly(vs: seq<ReplyView>, a: ResultAlias)
    requires |vs| > 1 && DistinctLists(vs) && a.kind != UnsetResult
    requires RowsOf(Fold(vs[..|vs| - 1]), a) == StreamRows(vs[..|vs| - 1], a)
    ensures LastKept(vs, a) <==> Kept(Fold(vs[..|vs| - 1]), vs[|vs| - 1], a)
  {
    hide EntryOf, Merge, Times, Replaced, Fold;
    var front := vs[..|vs| - 1];
    var base := vs[BaseRecord(front)];
    assert base in vs;
    FoldShape(front, a);
    SameShape(Fold(front), base, vs[|vs| - 1], a);
    AtMostOnce(Fold(front), vs[|vs| - 1], a);
  }

  lemma RecordsSplit(vs: seq<ReplyView>, a: ResultAlias)
    requires |vs| > 1
    ensures RecordsLoseNothing(vs, a) <==> RecordsLoseNothing(vs[..|vs| - 1], a) && LastKept(vs, a)
  {
    var n := |vs| - 1;
    forall i | 0 < i < |vs| ensures KeptAt(vs, i, a) <==> if i < n then KeptAt(vs[..n], i, a) else LastKept(vs, a) {
      if i < n {
        assert vs[..n][..i + 1] == vs[..i + 1];
      } else {
        assert vs[..i + 1] == vs;
      }
    }
    hide KeptAt, LastKept;
    if RecordsLoseNothing(vs, a) {
      assert KeptAt(vs, n, a);
      forall i | 0 < i < n ensures KeptAt(vs[..n], i, a) {
        assert KeptAt(vs, i, a);
      }
    }
  }

  /** The same as a condition on the records alone: the alias ends with all its rows, in order, if and only
      if no record replaces another after rows of it were read, and rows only arrive where every needed
      section is there and no nil table is in the way. */
  lemma {:induction false} RecordsConcatenateExactly(vs: seq<ReplyView>, a: ResultAlias)
    requires vs != [] && DistinctLists(vs) && a.kind != UnsetResult
    ensures RecordsLoseNothing(vs, a) <==> RowsOf(Fold(vs), a) == StreamRows(vs, a)
    decreases |vs|
  {
    hide Merge, RowsOf, RecordsLoseNothing, LastKept, Kept;
    var n := |vs| - 1;
    if n == 0 {
      assert vs == [vs[0]];
      OneRecord(vs[0], a);
      NothingToLose(vs, a);
    } else {
      var front := vs[..n];
      RecordsConcatenateExactly(front, a);
      RecordsSplit(vs, a);
      RunNeverGains(vs, a);
      KeptExactly(Fold(front), vs[n], a);
      if RowsOf(Fold(front), a) == StreamRows(front, a) {
        LastKeptExactly(vs, a);
      }
    }
  }

  /** A later record without an alias list of its own still adds its rows. */
  lemma LaterListIsNotRead(row: EntityRow)
    ensures var n := ResultAlias("n", NodeResult);
      var v1 := ReplyView([n], map[NodeResult := [Entry("n", [], Some([]))]]);
      var v2 := ReplyView([], map[NodeResult := [Entry("n", [], Some([Entity(row)]))]]);
      RowsOf(Fold([v1, v2]), n) == RowsOf(v2, n) == [Entity(row)]
  {
    var n := ResultAlias("n", NodeResult);
    var v1 := ReplyView([n], map[NodeResult := [Entry("n", [], Some([]))]]);
    var v2 := ReplyView([], map[NodeResult := [Entry("n", [], Some([Entity(row)]))]]);
    var vs := [v1, v2];
    assert EntryOf(v1, n) == Some(Entry("n", [], Some([])));
    assert EntryOf(v2, n) == Some(Entry("n", [], Some([Entity(row)])));
    FoldConcatenates(vs);
    assert vs[..1] == [v1];
    OneRecord(v1, n);
    assert StreamRows(vs, n) == StreamRows([v1], n) + RowsOf(v2, n);
  }

  // ---- reading the stream and reading the fold ----

  /** An entry is only listed in the section of its alias's own kind. */
  ghost predicate WellNamed(v: ReplyView, aliases: seq<ResultAlias>) {
    forall k, e, a :: k in v.sections && e in v.sections[k] && a in aliases && e.alias == a.name ==> a.kind == k
  }

  /** Under well-named entries, looking an alias up finds the entry of its own section. */
  lemma {:induction false} FindFromFinds(v: ReplyView, a: ResultAlias, i: nat, kind: ResultType)
    requires i <= |v.aliases| && a in v.aliases && a.kind != UnsetResult && WellNamed(v, v.aliases)
    ensures var item := FindFrom(v, a.name, i, kind);
      && (item.data.Some? ==> item.data == EntryOf(v, a) && item.kind == a.kind)
      && (a in v.aliases[i..] && EntryOf(v, a).Some? ==> item.data.Some?)
    decreases |v.aliases| - i
  {
    if i < |v.aliases| {
      var b := v.aliases[i];
      assert v.aliases[i..] == [b] + v.aliases[i + 1..];
      FindFromFinds(v, a, i + 1, b.kind);
      if b.kind != UnsetResult && b.kind in v.sections && FindIndex(v.sections[b.kind], a.name) < |v.sections[b.kind]| {
        assert v.sections[b.kind][FindIndex(v.sections[b.kind], a.name)] in v.sections[b.kind];
      }
    }
  }

  lemma AliasDataFinds(v: ReplyView, a: ResultAlias)
    requires a in v.aliases && a.kind != UnsetResult && WellNamed(v, v.aliases)
    ensures AliasData(v, a.name).data == EntryOf(v, a)
    ensures EntryOf(v, a).Some? ==> AliasData(v, a.name).kind == a.kind
  {
    FindFromFinds(v, a, 0, UnsetResult);
    assert v.aliases[0..] == v.aliases;
  }

  lemma {:induction false} EntityRowsAppend(x: seq<Item>, y: seq<Item>)
    ensures EntityRows(x + y) == EntityRows(x) + EntityRows(y)
  {
    if y == [] {
      assert x + y == x;
    } else {
      assert (x + y)[..|x + y| - 1] == x + y[..|y| - 1];
      EntityRowsAppend(x, y[..|y| - 1]);
    }
  }

  /** Decoding goes row by row: tables of one schema list can be cut anywhere. */
  lemma {:induction false} DecodeRowsAppend<T>(schemas: seq<Schema>, x: seq<EntityRow>, y: seq<EntityRow>,
          make: (EntityRow, Values) -> T)
    requires DecodeRows(schemas, x, make).Ok? && DecodeRows(schemas, y, make).Ok?
    ensures DecodeRows(schemas, x + y, make)
         == Ok(DecodeRows(schemas, x, make).value + DecodeRows(schemas, y, make).value)
  {
    hide DecodeRow;
    if y == [] {
      assert x + y == x && DecodeRows(schemas, y, make) == Ok([]);
      assert DecodeRows(schemas, x, make).value + [] == DecodeRows(schemas, x, make).value;
    } else {
      var front, last := y[..|y| - 1], y[|y| - 1];
      assert (x + y)[..|x + y| - 1] == x + front && (x + y)[|x + y| - 1] == last;
      DecodeRowsAppend(schemas, x, front, make);
      if !last.isNull {
        var t := DecodeRow(schemas, last, make).value;
        var dx, dfront := DecodeRows(schemas, x, make).value, DecodeRows(schemas, front, make).value;
        assert (dx + dfront) + [t] == dx + (dfront + [t]);
      }
    }
  }

  /** Entries of an alias all carry one schema list. */
  predicate SchemasAre(e: Option<Entry>, schemas: seq<Schema>) {
    e.Some? ==> e.value.schemas == schemas
  }

  function ReadEntry<T>(e: Option<Entry>, schemas: seq<Schema>,
          make: (EntityRow, Values) -> T): Result<seq<T>, CodecError>
  {
    DecodeRows(schemas, EntityRows(Payload(e)), make)
  }

  /** AsNodes or AsEdges of the alias `a`, as a caller of Alias reads it. */
  function ReadAlias<T>(v: ReplyView, a: ResultAlias, make: (EntityRow, Values) -> T): Result<seq<T>, DataError>
  {
    AsEntities(AliasData(v, a.name), a.kind, make)
  }

  /** What AsNodes and AsEdges say to data they cannot read: an alias of another kind is an error, an Attr alias
      and an entry without a table are panics, and an alias without an entry reads as no rows. */
  lemma UnreadableData<T>(v: ReplyView, a: ResultAlias, kind: ResultType, make: (EntityRow, Values) -> T)
    requires a in v.aliases && a.kind != UnsetResult && kind in {NodeResult, EdgeResult} && WellNamed(v, v.aliases)
    ensures var r, e := AsEntities(AliasData(v, a.name), kind, make), EntryOf(v, a);
      && (e.None? ==> r == Ok([]))
      && (r == Err(WrongKind) <==> e.Some? && a.kind != kind && a.kind != AttrResult)
      && (r == Err(DataPanic) <==> e.Some? && (a.kind == AttrResult || (a.kind == kind && e.value.payload.None?)))
  {
    AliasDataFinds(v, a);
    hide AliasData, EntryOf, WellNamed, DecodeRows, EntityRows;
  }

  /** A name that no alias has reads as no rows under either kind. */
  lemma UnknownNameReadsNothing<T>(v: ReplyView, name: string, kind: ResultType, make: (EntityRow, Values) -> T)
    requires forall a :: a in v.aliases ==> a.name != name
    ensures AliasData(v, name) == DataItem(UnsetResult, None)
    ensures AsEntities(AliasData(v, name), kind, make) == Ok([])
  {
  }

  ghost predicate Readable(v: ReplyView, a: ResultAlias, schemas: seq<Schema>) {
    && a in v.aliases && a.kind in {NodeResult, EdgeResult}
    && WellNamed(v, v.aliases)
    && SchemasAre(EntryOf(v, a), schemas) && !NilPayload(EntryOf(v, a))
  }

  lemma ReadAliasReads<T>(v: ReplyView, a: ResultAlias, schemas: seq<Schema>, make: (EntityRow, Values) -> T)
    requires Readable(v, a, schemas)
    ensures ReadAlias(v, a, make) == match ReadEntry(EntryOf(v, a), schemas, make)
                                     case Err(e) => Err(Undecodable(e))
                                     case Ok(entities) => Ok(entities)
  {
    AliasDataFinds(v, a);
    if EntryOf(v, a).None? {
      assert EntityRows([]) == [];
      assert DecodeRows(schemas, [], make) == Ok([]);
    }
  }

  lemma {:induction false} MergeFromWellNamed(v1: ReplyView, v2: ReplyView, i: nat, shared: set<ResultAlias>,
                                              aliases: seq<ResultAlias>)
    requires i <= |v1.aliases| && WellNamed(v1, aliases) && WellNamed(v2, aliases)
    ensures WellNamed(MergeFrom(v1, v2, i, shared), aliases)
    decreases |v1.aliases| - i
  {
    hide WellNamed, MergeStep, Takes, Twice;
    if i < |v1.aliases| {
      var a := v1.aliases[i];
      if a.kind == UnsetResult {
        MergeFromWellNamed(v1, v2, i + 1, shared, aliases);
      } else if Shared(a, v1, v2) {
        StepTurns(v1, v2, a, shared, a);
        if a in shared {
          TwiceWellNamed(v1, a, aliases);
          TwiceWellNamed(v2, a, aliases);
          MergeFromWellNamed(Twice(v1, a), Twice(v2, a), i + 1, shared, aliases);
        } else {
          StepWellNamed(v1, v2, a, aliases);
          var now := if Takes(v1, v2, a) then shared + {a} else shared;
          MergeFromWellNamed(MergeStep(v1, v2, a), v2, i + 1, now, aliases);
        }
      }
    }
  }

  lemma TwiceWellNamed(v: ReplyView, a: ResultAlias, aliases: seq<ResultAlias>)
    requires a.kind in v.sections && WellNamed(v, aliases)
    ensures WellNamed(Twice(v, a), aliases)
  {
    var s := v.sections[a.kind];
    var i := FindIndex(s, a.name);
    if i < |s| {
      assert s[i] in s;
    }
  }

  lemma StepWellNamed(v1: ReplyView, v2: ReplyView, a: ResultAlias, aliases: seq<ResultAlias>)
    requires a.kind in v1.sections && a.kind in v2.sections && WellNamed(v1, aliases) && WellNamed(v2, aliases)
    ensures WellNamed(MergeStep(v1, v2, a), aliases)
  {
    var s1, s2 := v1.sections[a.kind], v2.sections[a.kind];
    SectionCases(s1, s2, a);
    var merged := MergeSection(s1, s2, a.name);
    forall e, b | e in merged && b in aliases && e.alias == b.name ensures b.kind == a.kind {
      assert exists e' :: (e' in s1 || e' in s2) && e'.alias == e.alias by {
        var i1, i2 := FindIndex(s1, a.name), FindIndex(s2, a.name);
        var j :| 0 <= j < |merged| && merged[j] == e;
        if j < |s1| {
          assert s1[j] in s1 && s1[j].alias == e.alias;
        } else {
          assert s2[i2] in s2 && s2[i2].alias == e.alias;
        }
      }
    }
  }

  ghost predicate Decodable<T>(v: ReplyView, a: ResultAlias, schemas: seq<Schema>, make: (EntityRow, Values) -> T) {
    Readable(v, a, schemas) && ReadEntry(EntryOf(v, a), schemas, make).Ok?
  }

  /** What the callbacks of a streaming reader see under an alias, one after the other. */
  ghost function Streamed<T>(vs: seq<ReplyView>, a: ResultAlias, schemas: seq<Schema>,
          make: (EntityRow, Values) -> T): seq<T>
    requires forall v :: v in vs ==> Decodable(v, a, schemas, make)
  {
    if vs == [] then []
    else
      var n := |vs| - 1;
      assert vs[n] in vs && Decodable(vs[n], a, schemas, make);
      ReadAliasReads(vs[n], a, schemas, make);
      Streamed(vs[..n], a, schemas, make) + ReadAlias(vs[n], a, make).value
  }

  /** Every entry of every record is in its alias's own section, whichever record names the alias. */
  ghost predicate AllWellNamed(vs: seq<ReplyView>) {
    forall v, w :: v in vs && w in vs ==> WellNamed(v, w.aliases)
  }

  lemma {:induction false} FoldWellNamed(vs: seq<ReplyView>, aliases: seq<ResultAlias>)
    requires vs != [] && forall v :: v in vs ==> WellNamed(v, aliases)
    ensures WellNamed(Fold(vs), aliases)
    decreases |vs|
  {
    hide WellNamed, MergeFrom;
    var n := |vs| - 1;
    assert vs[n] in vs;
    if n > 0 {
      FoldWellNamed(vs[..n], aliases);
      MergeFromWellNamed(Fold(vs[..n]), vs[n], 0, {}, aliases);
    }
  }

  /** Whatever entry the fold has under an alias carries the schema list all records have for it, and a
      table if they all have one. */
  lemma {:induction false} FoldSchemas(vs: seq<ReplyView>, a: ResultAlias, schemas: seq<Schema>)
    requires vs != [] && DistinctLists(vs) && a.kind != UnsetResult
    requires forall v :: v in vs ==> SchemasAre(EntryOf(v, a), schemas) && !NilPayload(EntryOf(v, a))
    ensures SchemasAre(EntryOf(Fold(vs), a), schemas) && !NilPayload(EntryOf(Fold(vs), a))
    decreases |vs|
  {
    hide EntryOf, Merge, Times, Distinct;
    var n := |vs| - 1;
    assert vs[n] in vs;
    if n > 0 {
      FoldSchemas(vs[..n], a, schemas);
      RunNeverGains(vs[..n], a);
      MergeTurns(Fold(vs[..n]), vs[n], a);
      AtMostOnce(Fold(vs[..n]), vs[n], a);
      OneTurn(Pair(EntryOf(Fold(vs[..n]), a), EntryOf(vs[n], a), false));
    }
  }

  /** The rows of the whole stream decode to what its callbacks read. */
  lemma {:induction false} StreamDecodes<T>(vs: seq<ReplyView>, a: ResultAlias, schemas: seq<Schema>,
                                            make: (EntityRow, Values) -> T)
    requires forall v :: v in vs ==> Decodable(v, a, schemas, make)
    ensures DecodeRows(schemas, EntityRows(StreamRows(vs, a)), make) == Ok(Streamed(vs, a, schemas, make))
    decreases |vs|
  {
    if vs == [] {
      assert DecodeRows(schemas, [], make) == Ok([]);
    } else {
      var n := |vs| - 1;
      assert vs[n] in vs && Decodable(vs[n], a, schemas, make);
      ReadAliasReads(vs[n], a, schemas, make);
      StreamDecodes(vs[..n], a, schemas, make);
      hide Decodable, Readable, ReadAlias, DecodeRows, EntityRows;
      EntityRowsAppend(StreamRows(vs[..n], a), RowsOf(vs[n], a));
      DecodeRowsAppend(schemas, EntityRows(StreamRows(vs[..n], a)), EntityRows(RowsOf(vs[n], a)), make);
    }
  }

  /** Streaming and collecting agree: when the records lose nothing, the entities the callbacks get, in
      order, are the entities of the folded reply. */
  lemma StreamedIsCollected<T>(vs: seq<ReplyView>, a: ResultAlias, schemas: seq<Schema>,
                               make: (EntityRow, Values) -> T)
    requires vs != [] && DistinctLists(vs) && AllWellNamed(vs) && RecordsLoseNothing(vs, a)
    requires forall v :: v in vs ==> Decodable(v, a, schemas, make)
    ensures ReadAlias(Fold(vs), a, make) == Ok(Streamed(vs, a, schemas, make))
  {
    assert vs[0] in vs && Decodable(vs[0], a, schemas, make);
    var base := vs[BaseRecord(vs)];
    assert base in vs && Decodable(base, a, schemas, make);
    assert forall v :: v in vs ==> Decodable(v, a, schemas, make) ==>
      SchemasAre(EntryOf(v, a), schemas) && !NilPayload(EntryOf(v, a));
    hide DistinctLists, RecordsLoseNothing, EntryOf, ReadAlias, WellNamed, DecodeRows, EntityRows, Streamed;
    FoldShape(vs, a);
    FoldWellNamed(vs, base.aliases);
    FoldSchemas(vs, a, schemas);
    RecordsConcatenateExactly(vs, a);
    StreamDecodes(vs, a, schemas, make);
    ReadAliasReads(Fold(vs), a, schemas, make);
  }

  /** No failure: both readers go through the whole stream. */
  lemma {:induction false} WholeStreamIsRead(records: seq<Record>, accepts: nat -> bool, from: nat)
    requires from <= |records| && forall i :: from <= i < |records| ==> !Refused(records[i]) && accepts(i)
    ensures Delivered(records, accepts, from) == |records|
    ensures from == 0 ==> RecordsRead(records) == |records| && !CollectFails(records, false)
    decreases |records| - from
  {
    if from < |records| {
      WholeStreamIsRead(records, accepts, from + 1);
    }
  }

  /** For any all-success stream that ends well, whose records lose nothing, and a callback that never
      refuses: what Recv's callbacks read under an alias, concatenated, is what a caller of NewUQLResponse
      reads from the one folded reply. */
  lemma ReadersAgree<T>(records: seq<Record>, accepts: nat -> bool, a: ResultAlias,
                        schemas: seq<Schema>, make: (EntityRow, Values) -> T)
    requires records != [] && forall i :: 0 <= i < |records| ==> !Refused(records[i]) && accepts(i)
    requires var vs := ViewsOf(records); DistinctLists(vs) && AllWellNamed(vs) && RecordsLoseNothing(vs, a)
    requires forall v :: v in ViewsOf(records) ==> Decodable(v, a, schemas, make)
    ensures var shown := ViewsOf(records)[..Delivered(records, accepts, 0)];
      var collected := ViewsOf(records)[..RecordsRead(records)];
      && !CollectFails(records, false) && collected != [] && shown == collected == ViewsOf(records)
      && ReadAlias(Fold(collected), a, make) == Ok(Streamed(shown, a, schemas, make))
  {
    hide DistinctLists, AllWellNamed, RecordsLoseNothing, Decodable, ReadAlias, Fold, Streamed, AliasData;
    WholeStreamIsRead(records, accepts, 0);
    assert ViewsOf(records)[..|records|] == ViewsOf(records);
    StreamedIsCollected(ViewsOf(records), a, schemas, make);
  }
}
