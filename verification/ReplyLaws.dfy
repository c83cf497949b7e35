// What merging keeps: the rows of every alias, in order, exactly when no section is missing.
module ReplyLaws {
  import opened Base
  import opened Rows
  import opened Reply

  /** The entry a reader finds under an alias of a kind: the first one. */
  function EntryOf(v: ReplyView, a: ResultAlias): Option<Entry> {
    if a.kind !in v.sections then None
    else
      var i := FindIndex(v.sections[a.kind], a.name);
      if i == |v.sections[a.kind]| then None else Some(v.sections[a.kind][i])
  }

  function Payload(e: Option<Entry>): seq<Item> {
    if e.Some? && e.value.payload.Some? then e.value.payload.value else []
  }

  function RowsOf(v: ReplyView, a: ResultAlias): seq<Item> {
    Payload(EntryOf(v, a))
  }

  /** One entry from two: rows are appended, unless the first has a nil table or Attr. */
  function Join(e1: Option<Entry>, e2: Option<Entry>): Option<Entry> {
    if e1.None? then e2
    else if e2.None? || e2.value.payload.None? || e1.value.payload.None? then e1
    else Some(e1.value.(payload := Some(e1.value.payload.value + e2.value.payload.value)))
  }

  // ---- one alias ----

  lemma {:induction false} FindIndexAppend(s: seq<Entry>, e: Entry, name: string)
    ensures FindIndex(s + [e], name) == if FindIndex(s, name) < |s| then FindIndex(s, name)
                                        else if e.alias == name then |s| else |s| + 1
  {
    if s == [] {
      assert s + [e] == [e];
    } else {
      assert (s + [e])[1..] == s[1..] + [e];
      FindIndexAppend(s[1..], e, name);
    }
  }

  lemma {:induction false} FindIndexUpdate(s: seq<Entry>, i: nat, e: Entry, name: string)
    requires i < |s| && e.alias == s[i].alias
    ensures FindIndex(s[i := e], name) == FindIndex(s, name)
  {
    if i == 0 {
      assert s[0 := e][1..] == s[1..];
    } else {
      assert s[i := e][1..] == s[1..][i - 1 := e];
      FindIndexUpdate(s[1..], i - 1, e, name);
    }
  }

  /** A step joins the entries of its own alias and leaves every other alias alone. */
  lemma StepJoins(v1: ReplyView, v2: ReplyView, a: ResultAlias, b: ResultAlias)
    requires a.kind in v1.sections && a.kind in v2.sections
    ensures EntryOf(MergeStep(v1, v2, a), b) == if a == b then Join(EntryOf(v1, a), EntryOf(v2, a)) else EntryOf(v1, b)
  {
    if a.kind == b.kind {
      var s1, s2 := v1.sections[a.kind], v2.sections[a.kind];
      var i1, i2 := FindIndex(s1, a.name), FindIndex(s2, a.name);
      SectionCases(s1, s2, a);
      if i2 < |s2| {
        FindIndexAppend(s1, s2[i2], b.name);
      }
      if i1 < |s1| && i2 < |s2| && s1[i1].payload.Some? && s2[i2].payload.Some? {
        FindIndexUpdate(s1, i1, s1[i1].(payload := Some(s1[i1].payload.value + s2[i2].payload.value)), b.name);
      }
    }
  }

  // ---- one merge ----

  predicate Shared(a: ResultAlias, v1: ReplyView, v2: ReplyView) {
    a.kind == UnsetResult || (a.kind in v1.sections && a.kind in v2.sections)
  }

  /** The first alias from `i` on whose section one of the replies lacks. */
  function FirstGap(v1: ReplyView, v2: ReplyView, i: nat): (j: nat)
    requires i <= |v1.aliases|
    ensures i <= j <= |v1.aliases|
    ensures j < |v1.aliases| ==> !Shared(v1.aliases[j], v1, v2)
    ensures forall k :: i <= k < j ==> Shared(v1.aliases[k], v1, v2)
    decreases |v1.aliases| - i
  {
    if i == |v1.aliases| || !Shared(v1.aliases[i], v1, v2) then i else FirstGap(v1, v2, i + 1)
  }

  /** The second reply replaces the first when only the first lacks the section of the gap. */
  predicate Replaced(v1: ReplyView, v2: ReplyView) {
    var j := FirstGap(v1, v2, 0);
    j < |v1.aliases| && v1.aliases[j].kind in v2.sections
  }

  /** The entries of one alias on both sides, and whether they are one object. */
  datatype Pair = Pair(e1: Option<Entry>, e2: Option<Entry>, shared: bool)
  {
    ghost predicate Valid() {
      shared ==> e1.Some? && e1 == e2
    }

    /** What merging the alias once does to them. */
    function Turn(): Pair {
      if shared then Pair(Join(e1, e1), Join(e2, e2), true)
      else Pair(Join(e1, e2), e2, e1.None? && e2.Some?)
    }
  }

  function Turns(p: Pair, n: nat): Pair
    decreases n
  {
    if n == 0 then p else Turns(p.Turn(), n - 1)
  }

  /** How often an alias is merged before the first gap. */
  function Times(v1: ReplyView, v2: ReplyView, b: ResultAlias, i: nat): nat
    requires i <= |v1.aliases|
  {
    multiset(v1.aliases[i..FirstGap(v1, v2, i)])[b]
  }

  lemma {:induction false} SameGap(v1: ReplyView, w1: ReplyView, v2: ReplyView, w2: ReplyView, i: nat)
    requires v1.aliases == w1.aliases && v1.sections.Keys == w1.sections.Keys && v2.sections.Keys == w2.sections.Keys
    requires i <= |v1.aliases|
    ensures FirstGap(v1, v2, i) == FirstGap(w1, w2, i)
    decreases |v1.aliases| - i
  {
    if i < |v1.aliases| {
      SameGap(v1, w1, v2, w2, i + 1);
    }
  }

  /** Appending an entry's rows to themselves touches that alias only. */
  lemma TwiceJoins(v: ReplyView, a: ResultAlias, b: ResultAlias)
    requires a.kind in v.sections
    ensures Twice(v, a).aliases == v.aliases && Twice(v, a).sections.Keys == v.sections.Keys
    ensures EntryOf(Twice(v, a), b) == if a == b then Join(EntryOf(v, a), EntryOf(v, a)) else EntryOf(v, b)
  {
    var s := v.sections[a.kind];
    var i := FindIndex(s, a.name);
    if i < |s| && s[i].payload.Some? {
      FindIndexUpdate(s, i, s[i].(payload := Some(s[i].payload.value + s[i].payload.value)), b.name);
    }
  }

  /** The state of the loop for one alias. */
  function PairOf(v1: ReplyView, v2: ReplyView, b: ResultAlias, shared: set<ResultAlias>): Pair {
    Pair(EntryOf(v1, b), EntryOf(v2, b), b in shared)
  }

  /** One step of the loop is one turn for its own alias and nothing for the others. */
  lemma StepTurns(v1: ReplyView, v2: ReplyView, a: ResultAlias, shared: set<ResultAlias>, b: ResultAlias)
    requires a.kind in v1.sections && a.kind in v2.sections
    ensures var w1 := if a in shared then Twice(v1, a) else MergeStep(v1, v2, a);
      var w2 := if a in shared then Twice(v2, a) else v2;
      var now := if a !in shared && Takes(v1, v2, a) then shared + {a} else shared;
      && w1.aliases == v1.aliases && w1.sections.Keys == v1.sections.Keys
      && w2.aliases == v2.aliases && w2.sections.Keys == v2.sections.Keys
      && PairOf(w1, w2, b, now) == if a == b then PairOf(v1, v2, b, shared).Turn() else PairOf(v1, v2, b, shared)
  {
    if a in shared {
      TwiceJoins(v1, a, b);
      TwiceJoins(v2, a, b);
    } else {
      StepJoins(v1, v2, a, b);
    }
  }

  lemma TimesStep(v1: ReplyView, v2: ReplyView, b: ResultAlias, i: nat)
    requires i < |v1.aliases|
    ensures Times(v1, v2, b, i) == if !Shared(v1.aliases[i], v1, v2) then 0
      else Times(v1, v2, b, i + 1) + if v1.aliases[i] == b then 1 else 0
  {
    if Shared(v1.aliases[i], v1, v2) {
      var j := FirstGap(v1, v2, i + 1);
      assert v1.aliases[i..j] == [v1.aliases[i]] + v1.aliases[i + 1..j];
    }
  }

  /** What the loop does to any alias of any alias list: as many turns as it is merged, and then the first
      reply, or the second when only the first lacks the section of the gap. */
  lemma {:induction false} MergeFromTurns(v1: ReplyView, v2: ReplyView, i: nat, shared: set<ResultAlias>,
                                          b: ResultAlias)
    requires i <= |v1.aliases| && b.kind != UnsetResult
    ensures var j := FirstGap(v1, v2, i);
      var r, pair := MergeFrom(v1, v2, i, shared), Turns(PairOf(v1, v2, b, shared), Times(v1, v2, b, i));
      if j < |v1.aliases| && v1.aliases[j].kind in v2.sections
      then r.aliases == v2.aliases && r.sections.Keys == v2.sections.Keys && EntryOf(r, b) == pair.e2
      else r.aliases == v1.aliases && r.sections.Keys == v1.sections.Keys && EntryOf(r, b) == pair.e1
    decreases |v1.aliases| - i
  {
    hide EntryOf, Join, Times, Pair.Turn, Twice, MergeStep, Takes;
    if i == |v1.aliases| {
      assert Times(v1, v2, b, i) == 0 by { NoTimes(v1, v2, b, i); }
    } else {
      MergeFromStep(v1, v2, i, shared);
      TimesStep(v1, v2, b, i);
      hide MergeFrom;
      var a := v1.aliases[i];
      if a.kind == UnsetResult {
        MergeFromTurns(v1, v2, i + 1, shared, b);
      } else if Shared(a, v1, v2) {
        StepTurns(v1, v2, a, shared, b);
        var w1 := if a in shared then Twice(v1, a) else MergeStep(v1, v2, a);
        var w2 := if a in shared then Twice(v2, a) else v2;
        var now := if a !in shared && Takes(v1, v2, a) then shared + {a} else shared;
        SameGap(v1, w1, v2, w2, i + 1);
        SameTimes(v1, w1, v2, w2, b, i + 1);
        MergeFromTurns(w1, w2, i + 1, now, b);
      }
    }
  }

  lemma NoTimes(v1: ReplyView, v2: ReplyView, b: ResultAlias, i: nat)
    requires i == |v1.aliases|
    ensures Times(v1, v2, b, i) == 0
  {
  }

  lemma SameTimes(v1: ReplyView, w1: ReplyView, v2: ReplyView, w2: ReplyView, b: ResultAlias, i: nat)
    requires v1.aliases == w1.aliases && v1.sections.Keys == w1.sections.Keys && v2.sections.Keys == w2.sections.Keys
    requires i <= |v1.aliases|
    ensures Times(v1, v2, b, i) == Times(w1, w2, b, i)
  {
    SameGap(v1, w1, v2, w2, i);
  }

  /** What merging does to every alias, whatever sections are missing and whatever the list repeats. */
  lemma MergeTurns(v1: ReplyView, v2: ReplyView, b: ResultAlias)
    requires b.kind != UnsetResult
    ensures var r, pair := Merge(v1, v2), Turns(Pair(EntryOf(v1, b), EntryOf(v2, b), false), Times(v1, v2, b, 0));
      if Replaced(v1, v2)
      then r.aliases == v2.aliases && r.sections.Keys == v2.sections.Keys && EntryOf(r, b) == pair.e2
      else r.aliases == v1.aliases && r.sections.Keys == v1.sections.Keys && EntryOf(r, b) == pair.e1
  {
    MergeFromTurns(v1, v2, 0, {}, b);
  }

  /** Without repeats an alias is merged once or not at all. */
  lemma MergeJoins(v1: ReplyView, v2: ReplyView, b: ResultAlias)
    requires Distinct(v1.aliases) && b.kind != UnsetResult
    ensures var r, j := Merge(v1, v2), FirstGap(v1, v2, 0);
      if Replaced(v1, v2)
      then r.aliases == v2.aliases && r.sections.Keys == v2.sections.Keys && EntryOf(r, b) == EntryOf(v2, b)
      else r.aliases == v1.aliases && r.sections.Keys == v1.sections.Keys
           && EntryOf(r, b) == if b in v1.aliases[..j] then Join(EntryOf(v1, b), EntryOf(v2, b)) else EntryOf(v1, b)
  {
    hide EntryOf, Join, Merge;
    MergeTurns(v1, v2, b);
    var j := FirstGap(v1, v2, 0);
    OnceAtMost(v1.aliases, j, b);
    assert v1.aliases[0..j] == v1.aliases[..j];
    var pair := Pair(EntryOf(v1, b), EntryOf(v2, b), false);
    assert Turns(pair, 0) == pair && Turns(pair, 1) == Turns(pair.Turn(), 0) == pair.Turn();
  }

  lemma {:induction false} OnceAtMost(s: seq<ResultAlias>, j: nat, b: ResultAlias)
    requires Distinct(s) && j <= |s|
    ensures multiset(s[..j])[b] == if b in s[..j] then 1 else 0
  {
    if j > 0 {
      OnceAtMost(s, j - 1, b);
      assert s[..j] == s[..j - 1] + [s[j - 1]];
      assert s[j - 1] !in s[..j - 1];
    }
  }

  lemma {:induction false} FoldTables(vs: seq<ReplyView>)
    requires vs != [] && forall v :: v in vs ==> TablesPresent(v)
    ensures TablesPresent(Fold(vs))
  {
    if |vs| > 1 {
      FoldTables(vs[..|vs| - 1]);
      MergeTables(Fold(vs[..|vs| - 1]), vs[|vs| - 1], 0, {});
    }
  }

  lemma {:induction false} MergeTables(v1: ReplyView, v2: ReplyView, i: nat, shared: set<ResultAlias>)
    requires i <= |v1.aliases| && TablesPresent(v1) && TablesPresent(v2)
    ensures TablesPresent(MergeFrom(v1, v2, i, shared))
    decreases |v1.aliases| - i
  {
    hide TablesPresent, MergeStep, Takes, Twice;
    if i < |v1.aliases| {
      var a := v1.aliases[i];
      if a.kind == UnsetResult {
        MergeTables(v1, v2, i + 1, shared);
      } else if Shared(a, v1, v2) {
        StepTurns(v1, v2, a, shared, a);
        if a in shared {
          TwiceTables(v1, a);
          TwiceTables(v2, a);
          MergeTables(Twice(v1, a), Twice(v2, a), i + 1, shared);
        } else {
          MergeStepTables(v1, v2, a);
          MergeTables(MergeStep(v1, v2, a), v2, i + 1, if Takes(v1, v2, a) then shared + {a} else shared);
        }
      }
    }
  }

  predicate NilPayload(e: Option<Entry>) {
    e.Some? && e.value.payload.None?
  }

  ghost predicate Concatenated(v1: ReplyView, v2: ReplyView, a: ResultAlias) {
    RowsOf(Merge(v1, v2), a) == RowsOf(v1, a) + RowsOf(v2, a)
  }

  /** What the gap cuts off has no rows, no rows meet a nil table, and nothing is merged twice. */
  predicate Kept(v1: ReplyView, v2: ReplyView, a: ResultAlias) {
    var times := Times(v1, v2, a, 0);
    if Replaced(v1, v2) then RowsOf(v1, a) == [] && (times > 1 && EntryOf(v1, a).None? ==> RowsOf(v2, a) == [])
    else (times == 1 && !NilPayload(EntryOf(v1, a))) || RowsOf(v2, a) == []
  }

  /** What a caller can check before merging. */
  predicate NothingLost(v1: ReplyView, v2: ReplyView) {
    forall a :: a in v1.aliases && a.kind != UnsetResult ==> Kept(v1, v2, a)
  }

  lemma {:induction false} NothingToAdd(p: Pair, n: nat)
    requires p.Valid() && Payload(p.e2) == []
    ensures Payload(Turns(p, n).e1) == Payload(p.e1) && Payload(Turns(p, n).e2) == []
    decreases n
  {
    if n > 0 {
      NothingToAdd(p.Turn(), n - 1);
      assert Payload(p.e1) + [] == Payload(p.e1);
    }
  }

  lemma {:induction false} NilStays(p: Pair, n: nat)
    requires !p.shared && NilPayload(p.e1)
    ensures Turns(p, n) == p
    decreases n
  {
    if n > 0 {
      NilStays(p, n - 1);
    }
  }

  /** An entry that is there keeps the second reply's as it is. */
  lemma {:induction false} SecondStays(p: Pair, n: nat)
    requires !p.shared && p.e1.Some?
    ensures Turns(p, n).e2 == p.e2
    decreases n
  {
    if n > 0 {
      SecondStays(p.Turn(), n - 1);
    }
  }

  /** Every turn adds the second reply's rows at least once. */
  lemma {:induction false} TurnsGrow(p: Pair, n: nat)
    requires p.Valid() && !NilPayload(p.e1) && Payload(p.e2) != [] && n > 0
    ensures |Payload(Turns(p, n).e1)| >= |Payload(p.e1)| + |Payload(p.e2)|
    ensures n > 1 ==> |Payload(Turns(p, n).e1)| > |Payload(p.e1)| + |Payload(p.e2)|
    ensures p.shared ==> Turns(p, n).e2 == Turns(p, n).e1
    decreases n
  {
    var next := p.Turn();
    assert |Payload(next.e1)| >= |Payload(p.e1)| + |Payload(p.e2)| && Payload(next.e2) != [] && !NilPayload(next.e1);
    if n > 1 {
      TurnsGrow(next, n - 1);
    }
  }

  /** One alias is concatenated exactly when nothing is cut off, swallowed or doubled. */
  lemma KeptExactly(v1: ReplyView, v2: ReplyView, a: ResultAlias)
    requires a.kind != UnsetResult
    ensures Concatenated(v1, v2, a) <==> Kept(v1, v2, a)
  {
    var p, n := Pair(EntryOf(v1, a), EntryOf(v2, a), false), Times(v1, v2, a, 0);
    MergeTurns(v1, v2, a);
    NoRoom(RowsOf(v1, a), RowsOf(v2, a));
    hide EntryOf, Merge, Times, Replaced;
    if n == 0 {
      assert Turns(p, 0) == p;
    } else if RowsOf(v2, a) == [] {
      NothingToAdd(p, n);
    } else if NilPayload(p.e1) {
      NilStays(p, n);
    } else if n == 1 {
      assert Turns(p, 1) == Turns(p.Turn(), 0) == p.Turn();
      JoinRows(p.e1, p.e2);
    } else {
      TurnsGrow(p, n);
      if p.e1.Some? {
        SecondStays(p, n);
      } else {
        assert Turns(p, n) == Turns(p.Turn(), n - 1) && p.Turn() == Pair(p.e2, p.e2, true);
        TurnsGrow(p.Turn(), n - 1);
      }
    }
  }

  /** For any alias list: merging is concatenation under every alias if and only if nothing is cut off,
      swallowed by a nil table, or merged twice. */
  lemma MergeConcatenatesExactly(v1: ReplyView, v2: ReplyView)
    ensures NothingLost(v1, v2)
       <==> forall a :: a in v1.aliases && a.kind != UnsetResult ==> Concatenated(v1, v2, a)
  {
    forall a | a in v1.aliases && a.kind != UnsetResult ensures Concatenated(v1, v2, a) <==> Kept(v1, v2, a) {
      KeptExactly(v1, v2, a);
    }
  }

  lemma NoRoom(s: seq<Item>, t: seq<Item>)
    ensures s + t == s <==> t == []
    ensures s + t == t <==> s == []
  {
    assert |s + t| == |s| + |t|;
    if t == [] { assert s + t == s; }
    if s == [] { assert s + t == t; }
  }

  lemma JoinRows(e1: Option<Entry>, e2: Option<Entry>)
    ensures Payload(Join(e1, e2)) == Payload(e1) + Payload(e2) <==> !NilPayload(e1) || Payload(e2) == []
    ensures !NilPayload(e1) && !NilPayload(e2) ==> !NilPayload(Join(e1, e2))
  {
    if e1.None? {
      assert Payload(e1) + Payload(e2) == Payload(e2);
    } else if Payload(e2) == [] {
      assert Payload(e1) + Payload(e2) == Payload(e1);
    }
  }

  /** A nil node section in the second reply drops the rows of every later alias. */
  lemma NilSectionLosesRows(row: EntityRow)
    ensures var n, e := ResultAlias("n", NodeResult), ResultAlias("e", EdgeResult);
      var v1 := ReplyView([n, e], map[NodeResult := [Entry("n", [], Some([]))],
                                      EdgeResult := [Entry("e", [], Some([]))]]);
      var v2 := ReplyView([n, e], map[EdgeResult := [Entry("e", [], Some([Entity(row)]))]]);
      RowsOf(v2, e) == [Entity(row)] && RowsOf(Merge(v1, v2), e) == []
  {
    var n, e := ResultAlias("n", NodeResult), ResultAlias("e", EdgeResult);
    var v2 := ReplyView([n, e], map[EdgeResult := [Entry("e", [], Some([Entity(row)]))]]);
    assert EntryOf(v2, e) == Some(Entry("e", [], Some([Entity(row)])));
  }

  /** An alias listed twice doubles the rows that only the second reply has. */
  lemma RepeatDoublesRows(row: EntityRow)
    ensures var n := ResultAlias("n", NodeResult);
      var v1 := ReplyView([n, n], map[NodeResult := []]);
      var v2 := ReplyView([n, n], map[NodeResult := [Entry("n", [], Some([Entity(row)]))]]);
      RowsOf(v1, n) == [] && RowsOf(v2, n) == [Entity(row)] && RowsOf(Merge(v1, v2), n) == [Entity(row), Entity(row)]
  {
    var n := ResultAlias("n", NodeResult);
    var v1 := ReplyView([n, n], map[NodeResult := []]);
    var v2 := ReplyView([n, n], map[NodeResult := [Entry("n", [], Some([Entity(row)]))]]);
    assert EntryOf(v1, n) == None && EntryOf(v2, n) == Some(Entry("n", [], Some([Entity(row)])));
    var pair := Pair(EntryOf(v1, n), EntryOf(v2, n), false);
    MergeTurns(v1, v2, n);
    assert FirstGap(v1, v2, 2) == 2 && FirstGap(v1, v2, 1) == 2 && FirstGap(v1, v2, 0) == 2;
    assert v1.aliases[0..2] == [n, n];
    assert Turns(pair, 2) == Turns(pair.Turn(), 1) == Turns(pair.Turn().Turn(), 0) == pair.Turn().Turn();
  }
}
