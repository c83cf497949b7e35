// Query replies and their folding: sdk/utils/merge.reply.go, sdk/http/response.query.go and
// sdk/http/responseStream.go. The five sections of a reply are handled alike, so they are one map
// from result type to entries; a section that is absent is a nil slice.
module Reply {
  import opened Base
  import opened Types
  import opened Rows

  datatype ResultType = UnsetResult | PathResult | NodeResult | EdgeResult | AttrResult | TableResult

  datatype ResultAlias = ResultAlias(name: string, kind: ResultType)

  /** One row of an entry: what it holds depends on the section. */
  datatype Item =
    | Entity(row: EntityRow)
    | TableRow(cells: seq<Bytes>)
    | PathItem(nodes: EntityTable, edges: EntityTable)
    | AttrValue(bytes: Bytes)

  datatype Status = Status(success: bool, message: string)

  // ---- replies as values ----

  /** The value of an entry; no payload stands for a nil node table, edge table or Attr. */
  datatype Entry = Entry(alias: string, schemas: seq<Schema>, payload: Option<seq<Item>>)

  datatype ReplyView = ReplyView(aliases: seq<ResultAlias>, sections: map<ResultType, seq<Entry>>)

  /** Position of the first entry of an alias, or the length when there is none. */
  function FindIndex(es: seq<Entry>, alias: string): (i: nat)
    ensures i <= |es|
    ensures i < |es| ==> es[i].alias == alias
    ensures forall j :: 0 <= j < i ==> es[j].alias != alias
  {
    if es == [] || es[0].alias == alias then 0 else 1 + FindIndex(es[1..], alias)
  }

  /** The body of MergeUQLReply's loop for one alias whose section both replies have. */
  function MergeSection(s1: seq<Entry>, s2: seq<Entry>, alias: string): seq<Entry> {
    var i1, i2 := FindIndex(s1, alias), FindIndex(s2, alias);
    if i2 == |s2| then s1
    else if i1 == |s1| then s1 + [s2[i2]]
    else if s2[i2].payload.None? then s1
    else if s1[i1].payload.None? then s1 + [s2[i2]]
    else s1[i1 := s1[i1].(payload := Some(s1[i1].payload.value + s2[i2].payload.value))]
  }

  function MergeStep(v1: ReplyView, v2: ReplyView, a: ResultAlias): ReplyView
    requires a.kind in v1.sections && a.kind in v2.sections
  {
    v1.(sections := v1.sections[a.kind := MergeSection(v1.sections[a.kind], v2.sections[a.kind], a.name)])
  }

  /** The second reply's entry itself becomes the first reply's entry of the alias. */
  predicate Takes(v1: ReplyView, v2: ReplyView, a: ResultAlias)
    requires a.kind in v1.sections && a.kind in v2.sections
  {
    var s1, s2 := v1.sections[a.kind], v2.sections[a.kind];
    FindIndex(s1, a.name) == |s1| && FindIndex(s2, a.name) < |s2|
  }

  /** The rows of an alias's entry, appended to themselves. */
  function Twice(v: ReplyView, a: ResultAlias): ReplyView
    requires a.kind in v.sections
  {
    var s := v.sections[a.kind];
    var i := FindIndex(s, a.name);
    if i == |s| || s[i].payload.None? then v
    else v.(sections := v.sections[a.kind := s[i := s[i].(payload := Some(s[i].payload.value + s[i].payload.value))]])
  }

  /** The loop from alias `i` on: a missing section ends it at once. An alias the list repeats is merged
      again; when its entry was taken over from the second reply, both replies now share that entry. */
  function MergeFrom(v1: ReplyView, v2: ReplyView, i: nat, shared: set<ResultAlias>): ReplyView
    requires i <= |v1.aliases|
    decreases |v1.aliases| - i
  {
    if i == |v1.aliases| then v1
    else
      var a := v1.aliases[i];
      if a.kind == UnsetResult then MergeFrom(v1, v2, i + 1, shared)
      else if a.kind !in v2.sections then v1
      else if a.kind !in v1.sections then v2
      else if a in shared then MergeFrom(Twice(v1, a), Twice(v2, a), i + 1, shared)
      else MergeFrom(MergeStep(v1, v2, a), v2, i + 1, if Takes(v1, v2, a) then shared + {a} else shared)
  }

  /** MergeUQLReply. */
  function Merge(v1: ReplyView, v2: ReplyView): ReplyView {
    MergeFrom(v1, v2, 0, {})
  }

  /** Folding a stream: later replies are merged into the first. */
  function Fold(vs: seq<ReplyView>): ReplyView
    requires vs != []
  {
    if |vs| == 1 then vs[0] else Merge(Fold(vs[..|vs| - 1]), vs[|vs| - 1])
  }

  /** Outside the Attr section a nil table would be dereferenced. */
  ghost predicate TablesPresent(v: ReplyView) {
    forall k, e :: k in v.sections && k != AttrResult && e in v.sections[k] ==> e.payload.Some?
  }

  // ---- replies as objects ----

  class AliasEntry {
    const alias: string
    const schemas: seq<Schema>
    var payload: Option<seq<Item>>

    constructor (alias: string, schemas: seq<Schema>, payload: Option<seq<Item>>)
      ensures View() == Entry(alias, schemas, payload)
    {
      this.alias, this.schemas, this.payload := alias, schemas, payload;
    }

    function View(): Entry
      reads this
    {
      Entry(alias, schemas, payload)
    }
  }

  function Views(es: seq<AliasEntry>): (vs: seq<Entry>)
    reads es
    ensures |vs| == |es|
    ensures forall i :: 0 <= i < |es| ==> vs[i] == es[i].View()
  {
    seq(|es|, i requires 0 <= i < |es| reads es => es[i].View())
  }

  type Sections = map<ResultType, seq<AliasEntry>>

  /** The entry is the one found under its alias. */
  ghost predicate First(es: seq<AliasEntry>, i: int) {
    0 <= i < |es| && forall h :: 0 <= h < i ==> es[h].alias != es[i].alias
  }

  ghost predicate RepeatsHidden(es: seq<AliasEntry>) {
    forall i, j :: 0 <= i < j < |es| && es[i] == es[j] ==> !First(es, i)
  }

  /** No entry object is in two sections, and one that is listed twice is hidden behind another entry of
      its alias, which is found instead. */
  ghost predicate Sound(sections: Sections) {
    && (forall k :: k in sections ==> RepeatsHidden(sections[k]))
    && (forall k, k', e :: k in sections && k' in sections && e in sections[k] && e in sections[k'] ==> k == k')
  }

  class QueryReply {
    const aliases: seq<ResultAlias>
    const status: Option<Status>
    var sections: map<ResultType, seq<AliasEntry>>

    constructor (aliases: seq<ResultAlias>, status: Option<Status>, sections: map<ResultType, seq<AliasEntry>>)
      ensures this.aliases == aliases && this.status == status && this.sections == sections
    {
      this.aliases, this.status, this.sections := aliases, status, sections;
    }

    ghost function Repr(): set<AliasEntry>
      reads this
    {
      set k, e | k in sections && e in sections[k] :: e
    }

    ghost predicate Valid()
      reads this
    {
      Sound(sections)
    }

    ghost function View(): ReplyView
      reads this, Repr()
      ensures Shows(View())
    {
      ReplyView(aliases, map k | k in sections :: SectionView(k))
    }

    ghost function SectionView(k: ResultType): seq<Entry>
      requires k in sections
      reads this, Repr()
    {
      assert forall e :: e in sections[k] ==> e in Repr();
      Views(sections[k])
    }

    /** The same as `View() == v`, entry by entry. */
    ghost predicate Shows(v: ReplyView)
      reads this, Repr()
    {
      && aliases == v.aliases && sections.Keys == v.sections.Keys
      && (forall k :: k in sections ==> |sections[k]| == |v.sections[k]|)
      && (forall k, i :: k in sections && 0 <= i < |sections[k]| ==>
            InRepr(k, i) && sections[k][i].View() == v.sections[k][i])
    }

    ghost predicate InRepr(k: ResultType, i: nat)
      requires k in sections && i < |sections[k]|
      reads this
      ensures InRepr(k, i)
    {
      assert sections[k][i] in sections[k];
      sections[k][i] in Repr()
    }

    lemma ShownKeys(v: ReplyView)
      requires Shows(v)
      ensures aliases == v.aliases && sections.Keys == v.sections.Keys
    {
    }

    lemma ShownView(v: ReplyView)
      requires Shows(v)
      ensures View() == v
    {
      forall k | k in sections ensures SectionView(k) == v.sections[k] {
      }
    }
  }

  /** utils.Find over the entries of a section. */
  method FindEntry(es: seq<AliasEntry>, alias: string, ghost vs: seq<Entry>) returns (i: nat)
    requires |es| == |vs| && forall j :: 0 <= j < |es| ==> es[j].View() == vs[j]
    ensures i == FindIndex(vs, alias)
  {
    i := 0;
    while i < |es| && es[i].alias != alias
      invariant 0 <= i <= |es|
      invariant forall j :: 0 <= j < i ==> vs[j].alias != alias
    {
      assert es[i].View() == vs[i];
      i := i + 1;
    }
    assert i < |es| ==> es[i].View() == vs[i];
  }

  /** The two replies' first entries of an alias are one object. */
  ghost predicate SameEntry(s1: seq<AliasEntry>, s2: seq<AliasEntry>, name: string) {
    exists i, j :: First(s1, i) && First(s2, j) && s1[i] == s2[j] && s1[i].alias == name
  }

  ghost predicate Gained(s1: Sections, s2: Sections, own: set<AliasEntry>) {
    forall k, e :: k in s1 && e in s1[k] && e !in own ==> k in s2 && e in s2[k]
  }

  ghost predicate FoundOwnOrShared(s1: Sections, own: set<AliasEntry>, shared: set<ResultAlias>) {
    forall k, i :: k in s1 && First(s1[k], i) && s1[k][i] !in own ==> ResultAlias(s1[k][i].alias, k) in shared
  }

  ghost predicate SharedAreSame(s1: Sections, s2: Sections, shared: set<ResultAlias>) {
    forall a :: a in shared ==> a.kind in s1 && a.kind in s2 && SameEntry(s1[a.kind], s2[a.kind], a.name)
  }

  /** Whatever the first reply gained came from the second; found under its alias it is shared. */
  ghost predicate Linked(s1: Sections, s2: Sections, own: set<AliasEntry>, shared: set<ResultAlias>) {
    Gained(s1, s2, own) && FoundOwnOrShared(s1, own, shared) && SharedAreSame(s1, s2, shared)
  }

  lemma LinkedRepr(reply1: QueryReply, reply2: QueryReply, own: set<AliasEntry>, shared: set<ResultAlias>)
    requires Linked(reply1.sections, reply2.sections, own, shared)
    ensures reply1.Repr() <= own + reply2.Repr()
  {
  }

  lemma FirstIsFound(es: seq<AliasEntry>, vs: seq<Entry>, name: string)
    requires |es| == |vs| && forall j :: 0 <= j < |es| ==> es[j].View() == vs[j]
    ensures var i := FindIndex(vs, name); i < |es| ==> First(es, i) && es[i].alias == name
    ensures forall i :: First(es, i) && es[i].alias == name ==> i == FindIndex(vs, name)
  {
    assert forall j :: 0 <= j < |es| ==> es[j].alias == vs[j].alias;
  }

  lemma MergeFromStep(v1: ReplyView, v2: ReplyView, i: nat, shared: set<ResultAlias>)
    requires i < |v1.aliases|
    ensures var a := v1.aliases[i];
      MergeFrom(v1, v2, i, shared)
      == if a.kind == UnsetResult then MergeFrom(v1, v2, i + 1, shared)
         else if a.kind !in v2.sections then v1
         else if a.kind !in v1.sections then v2
         else if a in shared then MergeFrom(Twice(v1, a), Twice(v2, a), i + 1, shared)
         else MergeFrom(MergeStep(v1, v2, a), v2, i + 1, if Takes(v1, v2, a) then shared + {a} else shared)
  {
    hide MergeStep, Takes, Twice;
  }

  lemma MergeFromEnd(v1: ReplyView, v2: ReplyView, shared: set<ResultAlias>)
    ensures MergeFrom(v1, v2, |v1.aliases|, shared) == v1
  {
  }

  method MergeUQLReply(reply1: QueryReply, reply2: QueryReply) returns (r: QueryReply)
    requires reply1 != reply2 && reply1.Valid() && reply2.Valid() && reply1.Repr() !! reply2.Repr()
    requires TablesPresent(reply1.View()) && TablesPresent(reply2.View())
    modifies reply1, reply1.Repr(), reply2.Repr()
    ensures r == reply1 || r == reply2
    ensures r.Valid() && r.Repr() <= old(reply1.Repr() + reply2.Repr())
    ensures r.View() == Merge(old(reply1.View()), old(reply2.View()))
  {
    hide TablesPresent, MergeStep, Takes, Twice, Linked, MergeFrom, QueryReply.Shows, QueryReply.Valid, QueryReply.View;
    ghost var first, second := reply1.View(), reply2.View();
    ghost var own, v1, v2, shared := reply1.Repr(), first, second, {};
    reply1.ShownKeys(v1);
    StartLinked(reply1, reply2);
    var i := 0;
    while i < |reply1.aliases|
      invariant 0 <= i <= |reply1.aliases| && reply2.sections == old(reply2.sections)
      invariant reply1.Valid() && Linked(reply1.sections, reply2.sections, own, shared)
      invariant reply1.Shows(v1) && reply2.Shows(v2) && TablesPresent(v1) && TablesPresent(v2)
      invariant reply1.aliases == v1.aliases && MergeFrom(v1, v2, i, shared) == Merge(first, second)
    {
      reply1.ShownKeys(v1);
      reply2.ShownKeys(v2);
      var a := reply1.aliases[i];
      MergeFromStep(v1, v2, i, shared);
      if a.kind != UnsetResult {
        if a.kind !in reply2.sections {
          LinkedRepr(reply1, reply2, own, shared);
          reply1.ShownView(v1);
          return reply1;
        }
        if a.kind !in reply1.sections {
          reply2.ShownView(v2);
          return reply2;
        }
        MergeEntries(reply1, reply2, a, own, shared, v1, v2);
        if a in shared {
          v1, v2 := Twice(v1, a), Twice(v2, a);
        } else {
          v1, shared := MergeStep(v1, v2, a), if Takes(v1, v2, a) then shared + {a} else shared;
        }
        reply1.ShownKeys(v1);
      }
      i := i + 1;
    }
    MergeFromEnd(v1, v2, shared);
    LinkedRepr(reply1, reply2, own, shared);
    reply1.ShownView(v1);
    r := reply1;
  }

  lemma StartLinked(reply1: QueryReply, reply2: QueryReply)
    ensures Linked(reply1.sections, reply2.sections, reply1.Repr(), {})
  {
    forall k, i | k in reply1.sections && First(reply1.sections[k], i) ensures reply1.sections[k][i] in reply1.Repr() {
      assert reply1.sections[k][i] in reply1.sections[k];
    }
  }

  method MergeEntries(reply1: QueryReply, reply2: QueryReply, a: ResultAlias, ghost own: set<AliasEntry>,
                      ghost shared: set<ResultAlias>, ghost v1: ReplyView, ghost v2: ReplyView)
    requires reply1 != reply2 && reply1.Valid() && reply2.Valid()
    requires reply1.Shows(v1) && reply2.Shows(v2)
    requires a.kind in v1.sections && a.kind in v2.sections
    requires own !! reply2.Repr() && Linked(reply1.sections, reply2.sections, own, shared)
    requires TablesPresent(v1) && TablesPresent(v2)
    modifies reply1, own, reply2.Repr()
    ensures reply1.Valid() && reply2.sections == old(reply2.sections)
    ensures a in shared ==>
      && Linked(reply1.sections, reply2.sections, own, shared)
      && reply1.Shows(Twice(v1, a)) && reply2.Shows(Twice(v2, a))
      && TablesPresent(Twice(v1, a)) && TablesPresent(Twice(v2, a))
    ensures a !in shared ==>
      && Linked(reply1.sections, reply2.sections, own, if Takes(v1, v2, a) then shared + {a} else shared)
      && reply1.Shows(MergeStep(v1, v2, a)) && reply2.Shows(v2)
      && TablesPresent(MergeStep(v1, v2, a))
  {
    hide TablesPresent, FindIndex, MergeSection, MergeStep, Twice, Takes, Linked, First, Sound, QueryReply.Valid,
      QueryReply.View, WithMore;
    var i1, none1 := Locate(reply1, a, v1);
    var i2, none2 := Locate(reply2, a, v2);
    SharedIsFound(reply1, reply2, a, own, shared, i1, i2, v1, v2);
    hide QueryReply.Shows;
    MergeStepTables(v1, v2, a);
    TwiceTables(v1, a);
    TwiceTables(v2, a);
    StepCases(v1, v2, a);
    if i2 == |reply2.sections[a.kind]| || (i1 < |reply1.sections[a.kind]| && none2) {
    } else if i1 == |reply1.sections[a.kind]| || none1 {
      TakeEntry(reply1, reply2, a, i1, i2, own, shared, v1, v2);
    } else {
      TakeRows(reply1, reply2, a, i1, i2, own, shared, v1, v2);
    }
  }

  /** Finds an alias's entry, and whether its table or Attr is nil. */
  method Locate(reply: QueryReply, a: ResultAlias, ghost v: ReplyView) returns (i: nat, none: bool)
    requires reply.Shows(v) && a.kind in v.sections
    ensures a.kind in reply.sections && |reply.sections[a.kind]| == |v.sections[a.kind]|
    ensures i == FindIndex(v.sections[a.kind], a.name)
    ensures i < |v.sections[a.kind]| ==> (none <==> v.sections[a.kind][i].payload.None?)
    ensures forall j :: First(reply.sections[a.kind], j) && reply.sections[a.kind][j].alias == a.name ==> j == i
    ensures i < |v.sections[a.kind]| ==> First(reply.sections[a.kind], i) && reply.sections[a.kind][i].alias == a.name
  {
    i := FindEntry(reply.sections[a.kind], a.name, v.sections[a.kind]);
    none := i < |reply.sections[a.kind]| && reply.sections[a.kind][i].payload.None?;
    FirstIsFound(reply.sections[a.kind], v.sections[a.kind], a.name);
    assert i < |v.sections[a.kind]| ==> reply.sections[a.kind][i].View() == v.sections[a.kind][i];
  }

  /** The entries found under an alias are one object if the alias is shared; otherwise the first reply's
      is its own. */
  lemma SharedIsFound(reply1: QueryReply, reply2: QueryReply, a: ResultAlias, own: set<AliasEntry>,
                      shared: set<ResultAlias>, i1: nat, i2: nat, v1: ReplyView, v2: ReplyView)
    requires reply1.Shows(v1) && reply2.Shows(v2) && a.kind in v1.sections && a.kind in v2.sections
    requires Linked(reply1.sections, reply2.sections, own, shared)
    requires i1 == FindIndex(v1.sections[a.kind], a.name) && i2 == FindIndex(v2.sections[a.kind], a.name)
    ensures a in shared ==>
      && i1 < |v1.sections[a.kind]| && i2 < |v2.sections[a.kind]|
      && reply1.sections[a.kind][i1] == reply2.sections[a.kind][i2]
      && v1.sections[a.kind][i1] == v2.sections[a.kind][i2]
    ensures a !in shared && i1 < |v1.sections[a.kind]| ==> reply1.sections[a.kind][i1] in own
  {
    FirstIsFound(reply1.sections[a.kind], v1.sections[a.kind], a.name);
    FirstIsFound(reply2.sections[a.kind], v2.sections[a.kind], a.name);
    if a in shared {
      assert SameEntry(reply1.sections[a.kind], reply2.sections[a.kind], a.name);
      var i, j :| First(reply1.sections[a.kind], i) && First(reply2.sections[a.kind], j)
        && reply1.sections[a.kind][i] == reply2.sections[a.kind][j] && reply1.sections[a.kind][i].alias == a.name;
      assert i == i1 && j == i2;
    }
  }

  /** The second reply's entry object becomes the first reply's own. */
  method TakeEntry(reply1: QueryReply, reply2: QueryReply, a: ResultAlias, i1: nat, i2: nat, ghost own: set<AliasEntry>,
                   ghost shared: set<ResultAlias>, ghost v1: ReplyView, ghost v2: ReplyView)
    requires reply1 != reply2 && reply1.Valid() && reply2.Valid() && reply1.Shows(v1) && reply2.Shows(v2)
    requires a.kind in v1.sections && a.kind in v2.sections
    requires own !! reply2.Repr() && Linked(reply1.sections, reply2.sections, own, shared)
    requires i1 == FindIndex(v1.sections[a.kind], a.name)
    requires i2 == FindIndex(v2.sections[a.kind], a.name) < |v2.sections[a.kind]|
    requires i1 < |v1.sections[a.kind]| ==> v1.sections[a.kind][i1] != v2.sections[a.kind][i2]
    modifies reply1
    ensures reply1.Valid() && reply2.sections == old(reply2.sections)
    ensures Linked(reply1.sections, reply2.sections, own, if Takes(v1, v2, a) then shared + {a} else shared)
    ensures reply1.Shows(v1.(sections := v1.sections[a.kind := v1.sections[a.kind] + [v2.sections[a.kind][i2]]]))
    ensures reply2.Shows(v2)
  {
    var e := reply2.sections[a.kind][i2];
    assert e.View() == v2.sections[a.kind][i2] && e in reply2.sections[a.kind];
    FirstIsFound(reply1.sections[a.kind], v1.sections[a.kind], a.name);
    FirstIsFound(reply2.sections[a.kind], v2.sections[a.kind], a.name);
    assert i1 < |v1.sections[a.kind]| ==> reply1.sections[a.kind][i1].View() == v1.sections[a.kind][i1];
    NotFoundInFirst(reply1, reply2, own, shared, a.kind, e);
    LinkedByEntry(reply1.sections, reply2.sections, own, shared, a, i2);
    hide Linked;
    AppendEntry(reply1, a.kind, e, v1);
  }

  /** The second reply's rows are appended to the first reply's entry in place; a shared entry gets its
      own rows once more, in both replies. */
  method TakeRows(reply1: QueryReply, reply2: QueryReply, a: ResultAlias, i1: nat, i2: nat, ghost own: set<AliasEntry>,
                  ghost shared: set<ResultAlias>, ghost v1: ReplyView, ghost v2: ReplyView)
    requires reply1 != reply2 && reply1.Valid() && reply2.Valid() && reply1.Shows(v1) && reply2.Shows(v2)
    requires a.kind in v1.sections && a.kind in v2.sections && own !! reply2.Repr()
    requires i1 < |v1.sections[a.kind]| && v1.sections[a.kind][i1].payload.Some? && First(reply1.sections[a.kind], i1)
    requires i2 < |v2.sections[a.kind]| && v2.sections[a.kind][i2].payload.Some? && First(reply2.sections[a.kind], i2)
    requires a in shared ==> reply1.sections[a.kind][i1] == reply2.sections[a.kind][i2]
    requires a !in shared ==> reply1.sections[a.kind][i1] in own
    modifies own, reply2.Repr()
    ensures reply1.sections == old(reply1.sections) && reply2.sections == old(reply2.sections)
    ensures reply1.Shows(WithMore(v1, a.kind, i1, v2.sections[a.kind][i2].payload.value))
    ensures a !in shared ==> reply2.Shows(v2)
    ensures a in shared ==> reply2.Shows(WithMore(v2, a.kind, i2, v2.sections[a.kind][i2].payload.value))
  {
    var e1, e2 := reply1.sections[a.kind][i1], reply2.sections[a.kind][i2];
    assert e1.View() == v1.sections[a.kind][i1] && e2.View() == v2.sections[a.kind][i2];
    assert e1 in reply1.sections[a.kind] && e2 in reply2.sections[a.kind];
    ghost var rows := v2.sections[a.kind][i2].payload.value;
    assert ShowsBut(reply1, v1, e1) && ShowsBut(reply2, v2, e1);
    hide WithMore;
    e1.payload := Some(e1.payload.value + e2.payload.value);
    assert ShowsBut(reply1, v1, e1) && ShowsBut(reply2, v2, e1);
    hide QueryReply.Shows, ShowsBut;
    GrownEntry(reply1, a.kind, i1, v1, rows);
    if a in shared {
      GrownEntry(reply2, a.kind, i2, v2, rows);
    }
  }

  /** One entry with more rows. */
  function WithMore(v: ReplyView, k: ResultType, i: nat, rows: seq<Item>): ReplyView
    requires k in v.sections && i < |v.sections[k]| && v.sections[k][i].payload.Some?
  {
    var e := v.sections[k][i];
    v.(sections := v.sections[k := v.sections[k][i := e.(payload := Some(e.payload.value + rows))]])
  }

  /** Every entry but one object shows its place in the view. */
  ghost predicate ShowsBut(reply: QueryReply, v: ReplyView, e: AliasEntry)
    reads reply, reply.Repr()
  {
    && reply.aliases == v.aliases && reply.sections.Keys == v.sections.Keys
    && (forall k :: k in reply.sections ==> |reply.sections[k]| == |v.sections[k]|)
    && (forall k, i :: k in reply.sections && 0 <= i < |reply.sections[k]| ==>
         reply.InRepr(k, i) && (reply.sections[k][i] == e || reply.sections[k][i].View() == v.sections[k][i]))
  }

  /** Rows appended to the object found under an alias show in that one place. */
  lemma GrownEntry(reply: QueryReply, k: ResultType, i: nat, v: ReplyView, rows: seq<Item>)
    requires reply.Valid() && k in v.sections && i < |v.sections[k]| && v.sections[k][i].payload.Some?
    requires k in reply.sections && First(reply.sections[k], i) && ShowsBut(reply, v, reply.sections[k][i])
    requires reply.sections[k][i].View()
          == v.sections[k][i].(payload := Some(v.sections[k][i].payload.value + rows))
    ensures reply.Shows(WithMore(v, k, i, rows))
  {
    var e := reply.sections[k][i];
    forall k', j | k' in reply.sections && 0 <= j < |reply.sections[k']| && reply.sections[k'][j] == e
      ensures k' == k && j == i
    {
      assert e in reply.sections[k'] && e in reply.sections[k];
    }
  }

  lemma SectionCases(s1: seq<Entry>, s2: seq<Entry>, a: ResultAlias)
    ensures var i1, i2 := FindIndex(s1, a.name), FindIndex(s2, a.name);
      var merged := MergeSection(s1, s2, a.name);
      && (i2 == |s2| || (i1 < |s1| && s2[i2].payload.None?) ==> merged == s1)
      && (i2 < |s2| && (i1 == |s1| || (s2[i2].payload.Some? && s1[i1].payload.None?)) ==> merged == s1 + [s2[i2]])
      && (i2 < |s2| && i1 < |s1| && s1[i1].payload.Some? && s2[i2].payload.Some? ==>
            merged == s1[i1 := s1[i1].(payload := Some(s1[i1].payload.value + s2[i2].payload.value))])
  {
  }

  lemma MergeStepTables(v1: ReplyView, v2: ReplyView, a: ResultAlias)
    requires a.kind in v1.sections && a.kind in v2.sections && TablesPresent(v1) && TablesPresent(v2)
    ensures TablesPresent(MergeStep(v1, v2, a))
  {
    var s1, s2 := v1.sections[a.kind], v2.sections[a.kind];
    forall e | e in MergeSection(s1, s2, a.name) && a.kind != AttrResult ensures e.payload.Some? {
    }
  }

  /** The step on the two replies, case by case. */
  lemma StepCases(v1: ReplyView, v2: ReplyView, a: ResultAlias)
    requires a.kind in v1.sections && a.kind in v2.sections
    ensures var s1, s2 := v1.sections[a.kind], v2.sections[a.kind];
      var i1, i2 := FindIndex(s1, a.name), FindIndex(s2, a.name);
      && (Takes(v1, v2, a) <==> i1 == |s1| && i2 < |s2|)
      && (i2 == |s2| || (i1 < |s1| && s2[i2].payload.None?) ==> MergeStep(v1, v2, a) == v1)
      && (i2 < |s2| && (i1 == |s1| || (s2[i2].payload.Some? && s1[i1].payload.None?)) ==>
            MergeStep(v1, v2, a) == v1.(sections := v1.sections[a.kind := s1 + [s2[i2]]]))
      && (i2 < |s2| && i1 < |s1| && s1[i1].payload.Some? && s2[i2].payload.Some? ==>
            MergeStep(v1, v2, a) == WithMore(v1, a.kind, i1, s2[i2].payload.value))
      && (i1 < |s1| ==>
            Twice(v1, a) == if s1[i1].payload.None? then v1 else WithMore(v1, a.kind, i1, s1[i1].payload.value))
      && (i2 < |s2| ==>
            Twice(v2, a) == if s2[i2].payload.None? then v2 else WithMore(v2, a.kind, i2, s2[i2].payload.value))
  {
    SectionCases(v1.sections[a.kind], v2.sections[a.kind], a);
    assert v1.sections[a.kind := v1.sections[a.kind]] == v1.sections;
    hide FindIndex, MergeSection;
  }

  lemma TwiceTables(v: ReplyView, a: ResultAlias)
    requires a.kind in v.sections && TablesPresent(v)
    ensures TablesPresent(Twice(v, a))
  {
  }

  /** The second reply's entry is not what the first reply finds under any alias, nor in another section. */
  lemma NotFoundInFirst(reply1: QueryReply, reply2: QueryReply, own: set<AliasEntry>, shared: set<ResultAlias>,
                        k: ResultType, e: AliasEntry)
    requires reply2.Valid() && own !! reply2.Repr() && Linked(reply1.sections, reply2.sections, own, shared)
    requires k in reply2.sections && e in reply2.sections[k]
    ensures forall k' :: k' in reply1.sections && e in reply1.sections[k'] ==> k' == k
  {
    assert e in reply2.Repr();
  }

  lemma FirstsStay(es: seq<AliasEntry>, e: AliasEntry)
    ensures forall j :: 0 <= j < |es| ==> (First(es + [e], j) <==> First(es, j))
    ensures First(es + [e], |es|) <==> forall j :: 0 <= j < |es| ==> es[j].alias != e.alias
  {
    assert forall j :: 0 <= j < |es| ==> (es + [e])[j] == es[j];
  }

  lemma SameEntryStays(s1: seq<AliasEntry>, s2: seq<AliasEntry>, e: AliasEntry, name: string)
    requires SameEntry(s1, s2, name)
    ensures SameEntry(s1 + [e], s2, name)
  {
    FirstsStay(s1, e);
    var x, y :| First(s1, x) && First(s2, y) && s1[x] == s2[y] && s1[x].alias == name;
    assert First(s1 + [e], x) && (s1 + [e])[x] == s1[x];
  }

  lemma LinkedByEntry(s1: Sections, s2: Sections, own: set<AliasEntry>, shared: set<ResultAlias>, a: ResultAlias,
                      i: nat)
    requires Linked(s1, s2, own, shared) && a.kind in s1 && a.kind in s2
    requires First(s2[a.kind], i) && s2[a.kind][i].alias == a.name
    ensures var unknown := forall j :: 0 <= j < |s1[a.kind]| ==> s1[a.kind][j].alias != a.name;
      Linked(s1[a.kind := s1[a.kind] + [s2[a.kind][i]]], s2, own, if unknown then shared + {a} else shared)
  {
    var es, e := s1[a.kind], s2[a.kind][i];
    assert e in s2[a.kind] && forall x :: x in es + [e] ==> x in es || x == e;
    FirstsStay(es, e);
    SharedStay(s1, s2, shared, a.kind, e);
    if forall j :: 0 <= j < |es| ==> es[j].alias != a.name {
      assert First(es + [e], |es|) && (es + [e])[|es|] == e;
      assert SameEntry(es + [e], s2[a.kind], a.name);
    }
    hide First, SameEntry;
  }

  lemma SharedStay(s1: Sections, s2: Sections, shared: set<ResultAlias>, k: ResultType, e: AliasEntry)
    requires SharedAreSame(s1, s2, shared) && k in s1
    ensures SharedAreSame(s1[k := s1[k] + [e]], s2, shared)
  {
    forall a | a in shared && a.kind == k ensures SameEntry(s1[k] + [e], s2[k], a.name) {
      SameEntryStays(s1[k], s2[k], e, a.name);
    }
    hide SameEntry;
  }

  /** Appends an entry object to a section, where it is not what is found under its alias. */
  method AppendEntry(reply: QueryReply, k: ResultType, e: AliasEntry, ghost v: ReplyView)
    requires reply.Valid() && reply.Shows(v) && k in v.sections
    requires forall j :: First(reply.sections[k], j) ==> reply.sections[k][j] != e
    requires forall k' :: k' in reply.sections && e in reply.sections[k'] ==> k' == k
    modifies reply
    ensures reply.sections == old(reply.sections)[k := old(reply.sections[k]) + [e]]
    ensures reply.Valid()
    ensures reply.Shows(v.(sections := v.sections[k := v.sections[k] + [e.View()]]))
  {
    ghost var s, more := reply.sections, v.sections[k := v.sections[k] + [e.View()]];
    SoundStays(s, k, e);
    hide Sound, RepeatsHidden, First, AliasEntry.View, QueryReply.View, QueryReply.SectionView, Views;
    reply.sections := reply.sections[k := reply.sections[k] + [e]];
    forall k', i | k' in reply.sections && 0 <= i < |reply.sections[k']|
      ensures reply.sections[k'][i].View() == more[k'][i]
    {
      if k' != k || i < |s[k]| {
        assert s[k'][i].View() == v.sections[k'][i];
      }
    }
  }

  lemma SoundStays(s: Sections, k: ResultType, e: AliasEntry)
    requires Sound(s) && k in s
    requires forall j :: First(s[k], j) ==> s[k][j] != e
    requires forall k' :: k' in s && e in s[k'] ==> k' == k
    ensures Sound(s[k := s[k] + [e]])
  {
    RepeatsStayHidden(s[k], e);
    hide RepeatsHidden, First;
    assert forall x :: x in s[k] + [e] <==> x in s[k] || x == e;
  }

  lemma RepeatsStayHidden(es: seq<AliasEntry>, e: AliasEntry)
    requires RepeatsHidden(es) && forall j :: First(es, j) ==> es[j] != e
    ensures RepeatsHidden(es + [e])
  {
    var longer := es + [e];
    forall i, j | 0 <= i < j < |longer| && longer[i] == longer[j] ensures !First(longer, i) {
      assert forall h :: 0 <= h <= i ==> longer[h] == es[h];
      assert First(longer, i) ==> First(es, i);
    }
  }
}
