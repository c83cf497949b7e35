// The UQL maker and parser (sdk/utils/uql.maker.go): a command and its parameters are written as one
// chain of calls, and a regular expression takes such a chain apart again.
module Uql {
  import opened Base

  datatype Param = Param(key: string, value: string)

  /** An argument: what the type switches tell apart. `json` is the argument's JSON text with the
      dollar names unquoted, None when it cannot be marshalled. */
  datatype Value =
    | Nil
    | Bool(b: bool)
    | Text(text: string)
    | Texts(items: seq<string>, json: Option<string>)
    | Other(json: Option<string>)
  {
    function Json(): Option<string> {
      match this
      case Nil => Some("null")
      case Bool(b) => Some(if b then "true" else "false")
      case Text(text) => Some(text)
      case Texts(_, json) => json
      case Other(json) => json
    }
  }

  // ---- writing ----

  function Group(p: Param): string {
    p.key + "(" + p.value + ")"
  }

  /** strings.Join. */
  function Join(strs: seq<string>, sep: string): string {
    if strs == [] then ""
    else if |strs| == 1 then strs[0]
    else strs[0] + sep + Join(strs[1..], sep)
  }

  /** The parameters as they follow the command. */
  function Chain(ps: seq<Param>): string {
    if ps == [] then "" else "." + Group(ps[0]) + Chain(ps[1..])
  }

  function Groups(ps: seq<Param>): (r: seq<string>)
    ensures |r| == |ps|
    ensures forall i :: 0 <= i < |ps| ==> r[i] == Group(ps[i])
  {
    seq(|ps|, i requires 0 <= i < |ps| => Group(ps[i]))
  }

  lemma {:induction false} ChainIsJoin(ps: seq<Param>)
    requires ps != []
    ensures Chain(ps) == "." + Join(Groups(ps), ".")
    decreases |ps|
  {
    if |ps| == 1 {
      assert Chain(ps[1..]) == "";
    } else {
      ChainIsJoin(ps[1..]);
      assert Groups(ps)[1..] == Groups(ps[1..]);
    }
  }

  /** What AddParam appends. */
  function Added(key: string, value: Value, required: bool): seq<Param>
    decreases if key == "filter" then 1 else 0
  {
    var given := if value.Bool? then Text("") else value;
    if required && given.Nil? then []
    else if key == "filter" then Added("node_filter", given, true) + Added("edge_filter", given, true)
    else
      var text := if key == "policies" && given.Texts? then Some(Join(given.items, ",")) else given.Json();
      if text.Some? then [Param(key, text.value)] else []
  }

  /** Joining one more text. */
  lemma {:induction false} JoinSnoc(strs: seq<string>, s: string, sep: string)
    ensures Join([], sep) == "" && Join([s], sep) == s
    ensures strs != [] ==> Join(strs + [s], sep) == Join(strs, sep) + sep + s
  {
    if |strs| == 1 {
      assert (strs + [s])[1..] == [s];
    } else if strs != [] {
      assert (strs + [s])[1..] == strs[1..] + [s];
      JoinSnoc(strs[1..], s, sep);
    }
  }

  /** What each kind of value becomes: a bool an empty parameter, nil nothing or "null", a text itself, texts of
      policies joined by commas, and everything else its JSON text if it has one. */
  lemma AddedExactly(key: string, value: Value, required: bool)
    requires key != "filter"
    ensures Added(key, value, required) == match value
      case Nil => if required then [] else [Param(key, "null")]
      case Bool(_) => [Param(key, "")]
      case Text(text) => [Param(key, text)]
      case Texts(items, json) =>
        if key == "policies" then [Param(key, Join(items, ","))]
        else if json.Some? then [Param(key, json.value)] else []
      case Other(json) => if json.Some? then [Param(key, json.value)] else []
  {
  }

  /** A filter goes to nodes and edges, and nil goes to neither, required or not. */
  lemma FilterGoesToBoth(value: Value, required: bool)
    ensures Added("filter", value, required)
         == if value.Nil? then [] else Added("node_filter", value, true) + Added("edge_filter", value, true)
  {
  }

  class UQLMAKER {
    var command: string
    var commandP: string
    var params: seq<Param>

    constructor ()
      ensures command == "" && commandP == "" && params == []
    {
      command, commandP, params := "", "", [];
    }

    method SetCommand(command: string)
      modifies this`command
      ensures this.command == command
    {
      this.command := command;
    }

    method SetCommandParams(value: Value)
      modifies this`commandP
      ensures commandP == match value
                          case Nil => old(commandP)
                          case Bool(b) => if b then "true" else "false"
                          case Text(text) => text
                          case Texts(_, json) => if json.Some? then json.value else old(commandP)
                          case Other(json) => if json.Some? then json.value else old(commandP)
    {
      if value.Nil? {
        return;
      }
      if value.Text? {
        commandP := value.text;
        return;
      }
      if value.Json().None? {
        return;
      }
      commandP := value.Json().value;
    }

    method AddParam(key: string, value: Value, required: bool)
      modifies this`params
      ensures params == old(params) + Added(key, value, required)
      decreases if key == "filter" then 1 else 0
    {
      var given, needed := value, required;
      if value.Bool? {
        if value.b {
          needed := false;
        }
        given := Text("");
      }
      if needed {
        if given.Nil? {
          return;
        }
      }
      if key == "filter" {
        AddParam("node_filter", given, true);
        AddParam("edge_filter", given, true);
        return;
      }
      if key == "policies" && given.Texts? {
        given := Text(Join(given.items, ","));
      }
      if given.Json().None? {
        return;
      }
      params := params + [Param(key, given.Json().value)];
    }

    method ToString() returns (uql: string)
      ensures uql == Group(Param(command, commandP)) + Chain(params)
    {
      uql := Group(Param(command, commandP));
      if |params| > 0 {
        var strs: seq<string> := [];
        for i := 0 to |params|
          invariant strs == Groups(params)[..i]
        {
          strs := strs + [Group(params[i])];
        }
        ChainIsJoin(params);
        uql := uql + "." + Join(strs, ".");
        assert strs == Groups(params);
        assert uql == Group(Param(command, commandP)) + ("." + Join(strs, "."));
      } else {
        assert uql + "" == uql;
      }
    }
  }

  // ---- reading: `([a-zA-Z]*)\(([^\(|^\)]*)\)` ----

  predicate Letter(c: char) {
    'a' <= c <= 'z' || 'A' <= c <= 'Z'
  }

  /** The bracket class of the pattern also shuts out the bar and the caret. */
  predicate InClass(c: char) {
    c != '(' && c != '|' && c != '^' && c != ')'
  }

  const SMALL := "abcdefghijklmnopqrstuvwxyz"
  const CAPITALS := "ABCDEFGHIJKLMNOPQRSTUVWXYZ"

  lemma Alphabets(c: char)
    ensures c in SMALL <==> 'a' <= c <= 'z'
    ensures c in CAPITALS <==> 'A' <= c <= 'Z'
  {
    assert forall i :: 0 <= i < 26 ==> SMALL[i] as int == 97 + i;
    assert forall i :: 0 <= i < 26 ==> CAPITALS[i] as int == 65 + i;
    hide SMALL, CAPITALS;
    if 'a' <= c <= 'z' {
      assert SMALL[c as int - 97] == c;
    }
    if 'A' <= c <= 'Z' {
      assert CAPITALS[c as int - 65] == c;
    }
  }

  /** The pattern's classes and the parser's cutset, character by character. */
  lemma CharacterClasses(c: char)
    ensures Letter(c) <==> c in SMALL || c in CAPITALS
    ensures InClass(c) <==> c !in "(|^)"
    ensures Cut(c) <==> c in " '\""
  {
    Alphabets(c);
  }

  function LetterRun(s: string): (n: nat)
    ensures n <= |s| && (forall i :: 0 <= i < n ==> Letter(s[i])) && (n < |s| ==> !Letter(s[n]))
  {
    if s != "" && Letter(s[0]) then 1 + LetterRun(s[1..]) else 0
  }

  function ClassRun(s: string): (n: nat)
    ensures n <= |s| && (forall i :: 0 <= i < n ==> InClass(s[i])) && (n < |s| ==> !InClass(s[n]))
  {
    if s != "" && InClass(s[0]) then 1 + ClassRun(s[1..]) else 0
  }

  /** A match at the very front: name, value and the length of it all. */
  function MatchFront(s: string): (r: Option<(Param, nat)>)
    ensures r.Some? ==> 0 < r.value.1 <= |s|
  {
    var j := LetterRun(s);
    if j == |s| || s[j] != '(' then None
    else
      var k := ClassRun(s[j + 1..]);
      if j + 1 + k == |s| || s[j + 1 + k] != ')' then None
      else Some((Param(s[..j], s[j + 1..j + 1 + k]), j + 1 + k + 1))
  }

  /** FindAllStringSubmatch: the leftmost match, then on behind it. */
  function FindAll(s: string): seq<Param>
    decreases |s|
  {
    var m := MatchFront(s);
    if m.Some? then [m.value.0] + FindAll(s[m.value.1..])
    else if s == "" then []
    else FindAll(s[1..])
  }

  predicate Cut(c: char) {
    c == ' ' || c == '\'' || c == '\"'
  }

  function TrimLeft(s: string): string {
    if s != "" && Cut(s[0]) then TrimLeft(s[1..]) else s
  }

  function TrimRight(s: string): string {
    if s != "" && Cut(s[|s| - 1]) then TrimRight(s[..|s| - 1]) else s
  }

  /** strings.Trim with the parser's cutset. */
  function Trim(s: string): string {
    TrimRight(TrimLeft(s))
  }

  function Trimmed(ps: seq<Param>): (r: seq<Param>)
    ensures |r| == |ps|
    ensures forall i :: 0 <= i < |ps| ==> r[i] == Param(ps[i].key, Trim(ps[i].value))
  {
    seq(|ps|, i requires 0 <= i < |ps| => Param(ps[i].key, Trim(ps[i].value)))
  }

  /** Later values of a name overwrite earlier ones. */
  function AsMap(ps: seq<Param>): map<string, string> {
    if ps == [] then map[] else AsMap(ps[..|ps| - 1])[ps[|ps| - 1].key := ps[|ps| - 1].value]
  }

  lemma MapSnoc(ps: seq<Param>, p: Param)
    ensures AsMap(ps + [p]) == AsMap(ps)[p.key := p.value]
  {
    assert (ps + [p])[..|ps|] == ps;
  }

  class UQL {
    var uql: string
    var command: string
    var commandParam: string
    var params: map<string, string>

    constructor ()
    {
      uql, command, commandParam, params := "", "", "", map[];
    }

    ghost predicate Reads(ps: seq<Param>)
      reads this
    {
      if ps == [] then command == "" && commandParam == "" && params == map[]
      else Param(command, commandParam) == ps[0] && params == AsMap(ps[1..])
    }

    method Parse(uqlString: string)
      modifies this
      ensures uql == uqlString && Reads(Trimmed(FindAll(uqlString)))
    {
      var findAll := FindAll(uqlString);
      ghost var all := Trimmed(findAll);
      uql, command, commandParam, params := uqlString, "", "", map[];
      for i := 0 to |findAll|
        invariant uql == uqlString && Reads(all[..i])
      {
        hide AsMap;
        var name, value := findAll[i].key, Trim(findAll[i].value);
        if i == 0 {
          command, commandParam := name, value;
          assert all[..1][1..] == [];
        } else {
          params := params[name := value];
          assert all[..i + 1][1..] == all[..i][1..] + [all[i]];
          MapSnoc(all[..i][1..], all[i]);
        }
      }
      assert all[..|findAll|] == all;
    }
  }

  // ---- what is clean ----

  predicate Alphabetic(s: string) {
    forall c :: c in s ==> Letter(c)
  }

  predicate OnlyClass(s: string) {
    forall c :: c in s ==> InClass(c)
  }

  /** No brackets, bars or carets, and no blanks or quotes at the ends. */
  predicate Clean(s: string) {
    OnlyClass(s) && (s != "" ==> !Cut(s[0]) && !Cut(s[|s| - 1]))
  }

  predicate CleanParam(p: Param) {
    Alphabetic(p.key) && Clean(p.value)
  }

  predicate CleanParams(ps: seq<Param>) {
    forall p :: p in ps ==> CleanParam(p)
  }

  lemma {:induction false} TrimLeftCuts(s: string)
    ensures var t := TrimLeft(s); (t != "" ==> !Cut(t[0])) && (OnlyClass(s) ==> OnlyClass(t))
    ensures TrimLeft(s) == s <==> s == "" || !Cut(s[0])
    ensures |TrimLeft(s)| <= |s|
    decreases |s|
  {
    if s != "" && Cut(s[0]) {
      TrimLeftCuts(s[1..]);
    }
  }

  lemma {:induction false} TrimRightCuts(s: string)
    ensures var t := TrimRight(s); t <= s && (t != "" ==> !Cut(t[|t| - 1])) && (OnlyClass(s) ==> OnlyClass(t))
    ensures TrimRight(s) == s <==> s == "" || !Cut(s[|s| - 1])
    decreases |s|
  {
    if s != "" && Cut(s[|s| - 1]) {
      TrimRightCuts(s[..|s| - 1]);
    }
  }

  /** Trimming cleans what the class admits, and leaves exactly the clean text alone. */
  lemma TrimCleans(s: string)
    requires OnlyClass(s)
    ensures Clean(Trim(s)) && (Trim(s) == s <==> Clean(s))
  {
    TrimLeftCuts(s);
    TrimRightCuts(TrimLeft(s));
    TrimRightCuts(s);
  }

  // ---- reading what was written ----

  /** The letters at the end of a name. */
  function LetterSuffix(s: string): string {
    if Alphabetic(s) then s else LetterSuffix(s[1..])
  }

  lemma RunOfLetters(name: string, rest: string)
    requires Alphabetic(name) && (rest != "" ==> !Letter(rest[0]))
    ensures LetterRun(name + rest) == |name|
  {
    var s := name + rest;
    assert forall i :: 0 <= i < |name| ==> s[i] == name[i] && name[i] in name;
    assert rest != "" ==> s[|name|] == rest[0];
  }

  lemma RunOfClass(value: string, rest: string)
    requires OnlyClass(value) && rest != "" && rest[0] == ')'
    ensures ClassRun(value + rest) == |value|
  {
    var s := value + rest;
    assert s[|value|] == ')';
    assert forall i :: 0 <= i < |value| ==> s[i] == value[i] && value[i] in value;
  }

  lemma GroupParts(p: Param, rest: string)
    ensures var s, j, k := Group(p) + rest, |p.key|, |p.value|;
      && |Group(p)| == j + k + 2
      && s == p.key + ("(" + (p.value + (")" + rest)))
      && s[..j] == p.key && s[j] == '(' && s[j + 1..] == p.value + (")" + rest)
      && s[j + 1..j + 1 + k] == p.value && s[j + 1 + k] == ')'
  {
  }

  /** At a name of letters the group matches as a whole. */
  lemma MatchesHere(p: Param, rest: string)
    requires Alphabetic(p.key) && OnlyClass(p.value)
    ensures MatchFront(Group(p) + rest) == Some((p, |Group(p)|))
  {
    hide Group, LetterRun, ClassRun, Alphabetic, OnlyClass;
    GroupParts(p, rest);
    var tail := ")" + rest;
    RunOfLetters(p.key, "(" + (p.value + tail));
    RunOfClass(p.value, tail);
  }

  /** At a name with another character in it nothing matches before that character. */
  lemma NoMatchHere(p: Param, rest: string)
    requires !Alphabetic(p.key) && '(' !in p.key
    ensures MatchFront(Group(p) + rest).None?
  {
    var s := Group(p) + rest;
    var n := LetterRun(s);
    var c :| c in p.key && !Letter(c);
    var i :| 0 <= i < |p.key| && p.key[i] == c;
    assert s[i] == c;
    assert n <= i;
    assert s[n] == p.key[n] && p.key[n] in p.key;
  }

  /** Reading a group gives the letters its name ends in and its value, and goes on behind it. */
  lemma {:induction false} ReadsGroup(p: Param, rest: string)
    requires '(' !in p.key && OnlyClass(p.value)
    ensures FindAll(Group(p) + rest) == [Param(LetterSuffix(p.key), p.value)] + FindAll(rest)
    decreases |p.key|
  {
    var s := Group(p) + rest;
    if Alphabetic(p.key) {
      MatchesHere(p, rest);
      assert s[|Group(p)|..] == rest;
    } else {
      NoMatchHere(p, rest);
      var q := Param(p.key[1..], p.value);
      assert s[1..] == Group(q) + rest;
      ReadsGroup(q, rest);
    }
  }

  /** The parameters as they are read: only the letters at the end of each name. */
  function Suffixed(ps: seq<Param>): (r: seq<Param>)
    ensures |r| == |ps|
    ensures forall i :: 0 <= i < |ps| ==> r[i] == Param(LetterSuffix(ps[i].key), ps[i].value)
  {
    seq(|ps|, i requires 0 <= i < |ps| => Param(LetterSuffix(ps[i].key), ps[i].value))
  }

  lemma DotIsSkipped(key: string)
    ensures LetterSuffix("." + key) == LetterSuffix(key)
  {
    assert '.' in "." + key;
    assert ("." + key)[1..] == key;
  }

  ghost predicate Writable(ps: seq<Param>) {
    forall p :: p in ps ==> '(' !in p.key && OnlyClass(p.value)
  }

  lemma ChainStep(ps: seq<Param>)
    requires ps != []
    ensures Chain(ps) == Group(Param("." + ps[0].key, ps[0].value)) + Chain(ps[1..])
  {
    assert "." + (ps[0].key + "(" + ps[0].value + ")") == ("." + ps[0].key) + "(" + ps[0].value + ")";
  }

  lemma SuffixedStep(ps: seq<Param>)
    requires ps != []
    ensures Suffixed(ps) == [Param(LetterSuffix(ps[0].key), ps[0].value)] + Suffixed(ps[1..])
  {
    hide LetterSuffix;
  }

  lemma {:induction false} ReadsChain(ps: seq<Param>)
    requires Writable(ps)
    ensures FindAll(Chain(ps)) == Suffixed(ps)
    decreases |ps|
  {
    if ps == [] {
      assert MatchFront("").None?;
    } else {
      hide FindAll, OnlyClass, LetterSuffix, Chain, Group, Suffixed;
      var dotted := Param("." + ps[0].key, ps[0].value);
      ChainStep(ps);
      ReadsGroup(dotted, Chain(ps[1..]));
      DotIsSkipped(ps[0].key);
      ReadsChain(ps[1..]);
      SuffixedStep(ps);
    }
  }

  /** The text ToString makes of a command and its parameters. */
  function Written(command: Param, ps: seq<Param>): string {
    Group(command) + Chain(ps)
  }

  /** Any number of parameters, with any names without an opening bracket: the parser finds the command
      and every parameter, in order, each under the letters its name ends in. */
  lemma ParseOfWritten(command: Param, ps: seq<Param>)
    requires Writable([command] + ps)
    ensures FindAll(Written(command, ps)) == Suffixed([command] + ps)
  {
    hide FindAll, Group, Chain, OnlyClass, LetterSuffix;
    assert command in [command] + ps;
    assert forall p :: p in ps ==> p in [command] + ps;
    ReadsGroup(command, Chain(ps));
    ReadsChain(ps);
    assert Suffixed([command] + ps) == [Suffixed([command] + ps)[0]] + Suffixed(ps);
  }

  lemma CleanFront(p: Param, ps: seq<Param>)
    requires CleanParams(Trimmed(ps)) && CleanParam(Param(p.key, Trim(p.value)))
    ensures CleanParams(Trimmed([p] + ps))
  {
    assert Trimmed([p] + ps) == [Param(p.key, Trim(p.value))] + Trimmed(ps);
  }

  lemma MatchIsClean(s: string)
    requires MatchFront(s).Some?
    ensures var p := MatchFront(s).value.0; CleanParam(Param(p.key, Trim(p.value)))
  {
    TrimCleans(MatchFront(s).value.0.value);
  }

  /** Whatever is read has a name of letters and a clean trimmed value. */
  lemma {:induction false} ReadIsClean(s: string)
    ensures CleanParams(Trimmed(FindAll(s)))
    decreases |s|
  {
    var m := MatchFront(s);
    if m.Some? {
      ReadIsClean(s[m.value.1..]);
      MatchIsClean(s);
      CleanFront(m.value.0, FindAll(s[m.value.1..]));
    } else if s != "" {
      ReadIsClean(s[1..]);
    }
  }

  lemma CleanIsWritable(ps: seq<Param>)
    requires CleanParams(ps)
    ensures Writable(ps) && Trimmed(Suffixed(ps)) == ps
  {
    forall i | 0 <= i < |ps| ensures '(' !in ps[i].key && Trimmed(Suffixed(ps))[i] == ps[i] {
      assert ps[i] in ps;
      TrimCleans(ps[i].value);
    }
  }

  /** The parser gives back the very command and parameters that were written, in order, if and only if
      the command and every name are letters only and every value is clean. */
  lemma ParseUndoesWritingExactly(command: Param, ps: seq<Param>)
    ensures Trimmed(FindAll(Written(command, ps))) == [command] + ps <==> CleanParams([command] + ps)
  {
    if CleanParams([command] + ps) {
      CleanIsWritable([command] + ps);
      ParseOfWritten(command, ps);
    }
    ReadIsClean(Written(command, ps));
  }

  ghost predicate DistinctKeys(ps: seq<Param>) {
    forall i, j :: 0 <= i < j < |ps| ==> ps[i].key != ps[j].key
  }

  lemma {:induction false} AsMapHolds(ps: seq<Param>)
    ensures forall k :: k in AsMap(ps) ==> Param(k, AsMap(ps)[k]) in ps
    ensures forall p :: p in ps ==> p.key in AsMap(ps)
    decreases |ps|
  {
    if ps != [] {
      var front, last := ps[..|ps| - 1], ps[|ps| - 1];
      AsMapHolds(front);
      MapSnoc(front, last);
      hide AsMap;
      assert ps == front + [last];
    }
  }

  lemma {:induction false} AsMapDistinct(ps: seq<Param>)
    requires DistinctKeys(ps)
    ensures forall p :: p in ps ==> p.key in AsMap(ps) && AsMap(ps)[p.key] == p.value
    decreases |ps|
  {
    if ps != [] {
      var front, last := ps[..|ps| - 1], ps[|ps| - 1];
      AsMapDistinct(front);
      MapSnoc(front, last);
      hide AsMap;
      assert ps == front + [last];
      forall p | p in front ensures p.key != last.key {
        var i :| 0 <= i < |front| && ps[i] == p;
      }
    }
  }

  /** The parser's fields hold the command, its parameter and the map of parameters. */
  predicate Recovered(read: seq<Param>, command: Param, ps: seq<Param>) {
    if read == [] then command == Param("", "") && AsMap(ps) == map[]
    else read[0] == command && AsMap(read[1..]) == AsMap(ps)
  }

  lemma RecoveredIsClean(read: seq<Param>, command: Param, ps: seq<Param>)
    requires CleanParams(read) && DistinctKeys(ps) && Recovered(read, command, ps)
    ensures CleanParams([command] + ps)
  {
    hide AsMap;
    AsMapDistinct(ps);
    if read == [] {
      assert CleanParam(command);
      assert forall p :: p in [command] + ps ==> p == command;
    } else {
      hide CleanParam;
      AsMapHolds(read[1..]);
      assert read[0] in read && forall p :: p in read[1..] ==> p in read;
      forall p | p in ps ensures CleanParam(p) {
        assert p.key in AsMap(ps) && Param(p.key, AsMap(ps)[p.key]) == p;
      }
    }
  }

  /** What the caller sees after Parse(ToString()): with distinct names the command, its parameter and
      the map of parameters all come back if and only if everything is clean. */
  lemma CallerGetsBackExactly(command: Param, ps: seq<Param>)
    requires DistinctKeys(ps)
    ensures Recovered(Trimmed(FindAll(Written(command, ps))), command, ps) <==> CleanParams([command] + ps)
  {
    hide FindAll, Trimmed, Written, CleanParams;
    var read := Trimmed(FindAll(Written(command, ps)));
    ParseUndoesWritingExactly(command, ps);
    ReadIsClean(Written(command, ps));
    if Recovered(read, command, ps) {
      RecoveredIsClean(read, command, ps);
    }
    assert ([command] + ps)[1..] == ps;
  }

  // ---- a maker built by its own calls ----

  /** The parameters after AddParam calls with string values. */
  function AddedAll(calls: seq<Param>): seq<Param> {
    if calls == [] then []
    else AddedAll(calls[..|calls| - 1]) + Added(calls[|calls| - 1].key, Text(calls[|calls| - 1].value), true)
  }

  /** What is read for one call: a filter shows up twice. */
  function ReadFor(call: Param): seq<Param> {
    if call.key == "filter" then [call, call] else [call]
  }

  function ReadForAll(calls: seq<Param>): seq<Param> {
    if calls == [] then [] else ReadForAll(calls[..|calls| - 1]) + ReadFor(calls[|calls| - 1])
  }

  lemma TwiceIsOnce(ps: seq<Param>, p: Param)
    ensures AsMap(ps + ReadFor(p)) == AsMap(ps)[p.key := p.value]
  {
    hide AsMap;
    MapSnoc(ps, p);
    MapSnoc(ps + [p], p);
    assert (ps + [p]) + [p] == ps + [p, p];
  }

  lemma {:induction false} OneMapForAll(calls: seq<Param>)
    ensures AsMap(ReadForAll(calls)) == AsMap(calls)
    decreases |calls|
  {
    hide AsMap, ReadFor;
    if calls == [] {
      assert ReadForAll(calls) == calls;
    } else {
      var front, last := calls[..|calls| - 1], calls[|calls| - 1];
      OneMapForAll(front);
      TwiceIsOnce(ReadForAll(front), last);
      MapSnoc(front, last);
      assert calls == front + [last];
    }
  }

  /** A filter is written as a node filter and an edge filter; both names end in the letters "filter". */
  lemma OneCallIsRead(call: Param)
    requires CleanParam(call)
    ensures var ps := Added(call.key, Text(call.value), true);
      Writable(ps) && Trimmed(Suffixed(ps)) == ReadFor(call)
  {
    hide LetterSuffix, Trim, Clean, OnlyClass;
    CleanIsClass(call.value);
    TrimCleans(call.value);
    if call.key == "filter" {
      FilterSuffix();
      assert Added(call.key, Text(call.value), true)
          == [Param("node_filter", call.value), Param("edge_filter", call.value)];
    } else {
      CleanIsWritable([call]);
      assert Added(call.key, Text(call.value), true) == [call];
    }
  }

  lemma {:induction false} CallsAreRead(calls: seq<Param>)
    requires CleanParams(calls)
    ensures Writable(AddedAll(calls)) && Trimmed(Suffixed(AddedAll(calls))) == ReadForAll(calls)
    decreases |calls|
  {
    if calls != [] {
      var front, last := calls[..|calls| - 1], calls[|calls| - 1];
      hide CleanParam, LetterSuffix, Trim, OnlyClass, Added, ReadFor;
      CallsAreRead(front);
      OneCallIsRead(last);
      var a, b := AddedAll(front), Added(last.key, Text(last.value), true);
      assert Trimmed(Suffixed(a + b)) == Trimmed(Suffixed(a)) + Trimmed(Suffixed(b));
    }
  }

  /** From AddParam calls to the parser's map: for any clean command and any calls with clean strings
      under names of letters, filters and repeated names included, the parser ends with the command, its
      parameter, and for every name the value of its last call. */
  lemma CallsComeBack(command: Param, calls: seq<Param>)
    requires CleanParams([command] + calls)
    ensures Recovered(Trimmed(FindAll(Written(command, AddedAll(calls)))), command, calls)
  {
    hide FindAll, Written, CleanParam, OnlyClass, LetterSuffix, Trim, AddedAll, ReadForAll, AsMap;
    assert command in [command] + calls && forall p :: p in calls ==> p in [command] + calls;
    CallsAreRead(calls);
    CleanIsWritable([command]);
    assert command in [command];
    ParseOfWritten(command, AddedAll(calls));
    assert Trimmed(Suffixed([command] + AddedAll(calls)))
        == Trimmed(Suffixed([command])) + Trimmed(Suffixed(AddedAll(calls)));
    OneMapForAll(calls);
    assert ([command] + ReadForAll(calls))[1..] == ReadForAll(calls);
  }

  lemma CleanIsClass(s: string)
    requires Clean(s)
    ensures OnlyClass(s)
  {
  }

  lemma FilterSuffix()
    ensures LetterSuffix("node_filter") == LetterSuffix("edge_filter") == "filter"
    ensures '(' !in "node_filter" && '(' !in "edge_filter"
  {
    hide LetterSuffix;
    LongestSuffix("node_", "filter");
    LongestSuffix("edge_", "filter");
    assert "node_" + "filter" == "node_filter" && "edge_" + "filter" == "edge_filter";
  }

  lemma {:induction false} LongestSuffix(front: string, letters: string)
    requires front != "" && !Letter(front[|front| - 1]) && Alphabetic(letters)
    ensures LetterSuffix(front + letters) == letters
    decreases |front|
  {
    var s := front + letters;
    assert s[|front| - 1] in s;
    if |front| == 1 {
      assert s[1..] == letters;
    } else {
      assert s[1..] == front[1..] + letters;
      LongestSuffix(front[1..], letters);
    }
  }
}
