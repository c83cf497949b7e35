// CompareSchemas (sdk/structs/schema.go): does a new schema match the server's, or can it be made to by
// creating properties? The loop ranges over a Go map, so its order is anybody's guess.
module SchemaCompare {
  import opened Base
  import opened Types

  type PropertyMap = map<string, Property>

  datatype CompareError = Schema1Required | Schema2Required | Mismatch(name: string) | NotExist(name: string)

  /** The properties by name; the last one of a name wins. */
  function PropMap(ps: seq<Property>): PropertyMap {
    if ps == [] then map[] else PropMap(ps[..|ps| - 1])[ps[|ps| - 1].name := ps[|ps| - 1]]
  }

  lemma {:induction false} PropMapHolds(ps: seq<Property>)
    ensures forall n :: n in PropMap(ps) ==> PropMap(ps)[n] in ps && PropMap(ps)[n].name == n
    ensures forall p :: p in ps ==> p.name in PropMap(ps)
    decreases |ps|
  {
    if ps != [] {
      PropMapHolds(ps[..|ps| - 1]);
      assert ps == ps[..|ps| - 1] + [ps[|ps| - 1]];
    }
  }

  /** A stored property of the first schema has no counterpart in the second. */
  predicate Missing(m1: PropertyMap, m2: PropertyMap, name: string) {
    name in m1 && m1[name].Stored() && name !in m2
  }

  /** A stored property has another type in the second schema. */
  predicate Clashing(m1: PropertyMap, m2: PropertyMap, name: string) {
    name in m1 && m1[name].Stored() && name in m2 && m2[name].ptype != m1[name].ptype
  }

  /** The comparison fails at this name. */
  predicate FailsAt(m1: PropertyMap, m2: PropertyMap, fit: bool, name: string) {
    Clashing(m1, m2, name) || (!fit && Missing(m1, m2, name))
  }

  ghost predicate Matches(s1: Schema, s2: Schema, fit: bool) {
    forall n :: n in PropMap(s1.properties) ==> !FailsAt(PropMap(s1.properties), PropMap(s2.properties), fit, n)
  }

  /** `ps` lists each missing property once. */
  ghost predicate ListsMissing(m1: PropertyMap, m2: PropertyMap, names: set<string>, ps: seq<Property>) {
    && (forall i, j :: 0 <= i < j < |ps| ==> ps[i].name != ps[j].name)
    && (forall p :: p in ps ==> p.name in names && Missing(m1, m2, p.name) && m1[p.name] == p)
    && (forall n :: n in names && Missing(m1, m2, n) ==> m1[n] in ps)
  }

  /** What a comparison may answer for two schemas, whatever order the map is ranged over. */
  ghost predicate Answer(s1: Schema, s2: Schema, fit: bool, err: Option<CompareError>, notExist: seq<Property>) {
    var m1, m2 := PropMap(s1.properties), PropMap(s2.properties);
    && (err.None? <==> Matches(s1, s2, fit))
    && (err.None? ==> if fit then ListsMissing(m1, m2, m1.Keys, notExist) else notExist == [])
    && (err.Some? ==>
          notExist == [] && (if fit then err.value.Mismatch? else err.value.NotExist?)
          && FailsAt(m1, m2, fit, err.value.name))
  }

  lemma ListOneMore(m1: PropertyMap, m2: PropertyMap, names: set<string>, ps: seq<Property>, name: string)
    requires ListsMissing(m1, m2, names, ps) && name in m1 && name !in names && m1[name].name == name
    ensures ListsMissing(m1, m2, names + {name}, if Missing(m1, m2, name) then ps + [m1[name]] else ps)
  {
    var qs := if Missing(m1, m2, name) then ps + [m1[name]] else ps;
    assert forall p :: p in qs <==> p in ps || (Missing(m1, m2, name) && p == m1[name]);
  }

  /** None of these names fails. */
  ghost predicate Passed(m1: PropertyMap, m2: PropertyMap, fit: bool, names: set<string>) {
    forall n :: n in names ==> !FailsAt(m1, m2, fit, n)
  }

  lemma PassedOne(m1: PropertyMap, m2: PropertyMap, fit: bool, names: set<string>, name: string)
    requires Passed(m1, m2, fit, names)
    ensures !FailsAt(m1, m2, fit, name) ==> Passed(m1, m2, fit, names + {name})
  {
  }

  /** What the branches of the loop body test. */
  lemma FailsHere(m1: PropertyMap, m2: PropertyMap, fit: bool, name: string)
    requires name in m1
    ensures Missing(m1, m2, name) <==> m1[name].Stored() && name !in m2
    ensures FailsAt(m1, m2, fit, name) <==>
      m1[name].Stored() && ((name in m2 && m2[name].ptype != m1[name].ptype) || (!fit && name !in m2))
  {
  }

  lemma FailureAnswers(s1: Schema, s2: Schema, fit: bool, name: string)
    requires name in PropMap(s1.properties) && FailsAt(PropMap(s1.properties), PropMap(s2.properties), fit, name)
    ensures Answer(s1, s2, fit, Some(if fit then Mismatch(name) else NotExist(name)), [])
  {
  }

  lemma SuccessAnswers(s1: Schema, s2: Schema, fit: bool, notExist: seq<Property>)
    requires var m1, m2 := PropMap(s1.properties), PropMap(s2.properties);
      Passed(m1, m2, fit, m1.Keys) && if fit then ListsMissing(m1, m2, m1.Keys, notExist) else notExist == []
    ensures Answer(s1, s2, fit, None, notExist)
  {
  }

  lemma NothingListed(m1: PropertyMap, m2: PropertyMap)
    ensures ListsMissing(m1, m2, {}, [])
  {
  }

  method FillMap(ps: seq<Property>) returns (m: PropertyMap)
    ensures m == PropMap(ps)
  {
    m := map[];
    for i := 0 to |ps|
      invariant m == PropMap(ps[..i])
    {
      m := m[ps[i].name := ps[i]];
      assert ps[..i + 1][..i] == ps[..i];
    }
    assert ps[..|ps|] == ps;
  }

  method CompareSchemas(schema1: Option<Schema>, schema2: Option<Schema>, fit: bool)
      returns (err: Option<CompareError>, notExist: seq<Property>)
    ensures schema1.None? ==> err == Some(Schema1Required) && notExist == []
    ensures schema1.Some? && schema2.None? ==> err == (if fit then None else Some(Schema2Required)) && notExist == []
    ensures schema1.Some? && schema2.Some? ==> Answer(schema1.value, schema2.value, fit, err, notExist)
  {
    notExist := [];
    if schema1.None? {
      return Some(Schema1Required), [];
    }
    if schema2.None? {
      if fit {
        return None, [];
      } else {
        return Some(Schema2Required), [];
      }
    }
    var m1 := FillMap(schema1.value.properties);
    var m2 := FillMap(schema2.value.properties);
    PropMapHolds(schema1.value.properties);
    hide PropMap, ListsMissing, Answer, Matches, FailsAt, Missing, Clashing;
    assert Passed(m1, m2, fit, {});
    hide Passed;
    var todo := m1.Keys;
    NothingListed(m1, m2);
    assert m1.Keys - todo == {};
    while todo != {}
      invariant todo <= m1.Keys
      invariant Passed(m1, m2, fit, m1.Keys - todo)
      invariant if fit then ListsMissing(m1, m2, m1.Keys - todo, notExist) else notExist == []
    {
      var name :| name in todo;
      var prop1 := m1[name];
      FailsHere(m1, m2, fit, name);
      PassedOne(m1, m2, fit, m1.Keys - todo, name);
      if fit {
        ListOneMore(m1, m2, m1.Keys - todo, notExist, name);
      }
      if !prop1.IsIDType() && !prop1.IsIgnore() {
        if fit && name in m2 && m2[name].ptype != prop1.ptype {
          FailureAnswers(schema1.value, schema2.value, fit, name);
          return Some(Mismatch(prop1.name)), [];
        }
        if !fit && (name !in m2 || m2[name].ptype != prop1.ptype) {
          FailureAnswers(schema1.value, schema2.value, fit, name);
          return Some(NotExist(prop1.name)), [];
        }
        if fit && name !in m2 {
          notExist := notExist + [prop1];
        }
      }
      assert m1.Keys - (todo - {name}) == (m1.Keys - todo) + {name};
      todo := todo - {name};
    }
    assert m1.Keys - todo == m1.Keys;
    SuccessAnswers(schema1.value, schema2.value, fit, notExist);
    err := None;
  }

  /** Two comparisons of the same schemas agree on the verdict, and list the same missing properties,
      each as often, in whatever order. */
  lemma OrderDoesNotMatter(s1: Schema, s2: Schema, fit: bool,
                           err: Option<CompareError>, ps: seq<Property>, err': Option<CompareError>, ps': seq<Property>)
    requires Answer(s1, s2, fit, err, ps) && Answer(s1, s2, fit, err', ps')
    ensures err.None? <==> err'.None?
    ensures multiset(ps) == multiset(ps')
  {
    if err.None? && fit {
      ListedOnce(ps);
      ListedOnce(ps');
      PropMapHolds(s1.properties);
      var m1, m2 := PropMap(s1.properties), PropMap(s2.properties);
      forall p ensures multiset(ps)[p] == multiset(ps')[p] {
        assert p in ps ==> m1[p.name] in ps';
        assert p in ps' ==> m1[p.name] in ps;
      }
    }
  }

  lemma {:induction false} ListedOnce(ps: seq<Property>)
    requires forall i, j :: 0 <= i < j < |ps| ==> ps[i].name != ps[j].name
    ensures forall p :: multiset(ps)[p] == if p in ps then 1 else 0
  {
    if ps != [] {
      var front, last := ps[..|ps| - 1], ps[|ps| - 1];
      ListedOnce(front);
      assert ps == front + [last];
      forall i | 0 <= i < |front| ensures front[i] != last {
        assert ps[i].name != ps[|ps| - 1].name;
      }
    }
  }

  // ---- closure ----

  function Extended(s: Schema, ps: seq<Property>): Schema {
    s.(properties := s.properties + ps)
  }

  lemma {:induction false} PropMapAppend(a: seq<Property>, b: seq<Property>)
    ensures PropMap(a + b) == PropMap(a) + PropMap(b)
    decreases |b|
  {
    if b == [] {
      assert a + b == a;
    } else {
      PropMapAppend(a, b[..|b| - 1]);
      assert (a + b)[..|a + b| - 1] == a + b[..|b| - 1];
    }
  }

  /** After a fit comparison, creating the properties it returned makes the strict comparison succeed. */
  lemma CreatingMissingCloses(s1: Schema, s2: Schema, notExist: seq<Property>)
    requires Answer(s1, s2, true, None, notExist)
    ensures Matches(s1, Extended(s2, notExist), false)
  {
    var m1, m2, more := PropMap(s1.properties), PropMap(s2.properties), PropMap(notExist);
    PropMapHolds(s1.properties);
    PropMapHolds(notExist);
    PropMapAppend(s2.properties, notExist);
    forall n | n in m1 ensures !FailsAt(m1, m2 + more, false, n) {
      if n in more {
        assert more[n] in notExist;
      } else if Missing(m1, m2, n) {
        assert m1[n] in notExist;
      }
    }
  }

  /** Nothing less will do: properties with new names close the gap if and only if every missing one is
      among their names with its type, and nothing clashed to begin with. */
  lemma ClosesExactly(s1: Schema, s2: Schema, ps: seq<Property>)
    requires forall p :: p in ps ==> p.name !in PropMap(s2.properties)
    ensures Matches(s1, Extended(s2, ps), false) <==>
      && Matches(s1, s2, true)
      && forall n :: Missing(PropMap(s1.properties), PropMap(s2.properties), n) ==>
           n in PropMap(ps) && PropMap(ps)[n].ptype == PropMap(s1.properties)[n].ptype
  {
    var m1, m2, more := PropMap(s1.properties), PropMap(s2.properties), PropMap(ps);
    PropMapHolds(ps);
    PropMapAppend(s2.properties, ps);
    forall n | n in m1
      ensures FailsAt(m1, m2 + more, false, n) <==>
        FailsAt(m1, m2, true, n) || (Missing(m1, m2, n) && !(n in more && more[n].ptype == m1[n].ptype))
    {
    }
    assert PropMap(Extended(s2, ps).properties) == m2 + more;
  }

  /** The strict comparison succeeds exactly when the fit comparison does and returns nothing to create. */
  lemma StrictExactly(s1: Schema, s2: Schema, err: Option<CompareError>, notExist: seq<Property>)
    requires Answer(s1, s2, true, err, notExist)
    ensures Matches(s1, s2, false) <==> err.None? && notExist == []
  {
    var m1, m2 := PropMap(s1.properties), PropMap(s2.properties);
    if err.None? && notExist != [] {
      assert notExist[0] in notExist && FailsAt(m1, m2, false, notExist[0].name);
    }
    if err.Some? {
      assert FailsAt(m1, m2, false, err.value.name);
    }
  }

  ghost predicate StoresNothing(m: PropertyMap) {
    forall n :: n in m ==> !m[n].Stored()
  }

  /** A missing second schema is different: the fit comparison then returns nothing to create, and that
      is enough for a schema with no properties exactly when the first one stores none. */
  lemma NilSchemaClosesExactly(s1: Schema, name: string)
    ensures Matches(s1, Schema(name, []), false) <==> StoresNothing(PropMap(s1.properties))
  {
    var m1, m2 := PropMap(s1.properties), PropMap(Schema(name, []).properties);
    assert m2 == map[];
    if Matches(s1, Schema(name, []), false) {
      forall n | n in m1 ensures !m1[n].Stored() {
        assert !FailsAt(m1, m2, false, n);
      }
    }
  }
}
