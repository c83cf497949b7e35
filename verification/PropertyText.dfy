// The property-type grammar (sdk/structs/property.go): types are printed for the server and parsed from
// its answers. The three regular expressions are written out as matchers.
module PropertyText {
  import opened Base
  import opened Types
  import Decimal

  datatype DecimalExtra = DecimalExtra(precision: Int64, scale: Int64)

  /** What the grammar is about: the type, the types of the elements, and a decimal's digits. */
  datatype Kind = Kind(ptype: PropertyType, subTypes: seq<PropertyType>, extra: Option<DecimalExtra>)

  const FRESH: Kind := Kind(UNSET, [], None)

  /** GetStringType fails on the first three; the last is a nil pointer dereference. */
  datatype TextError = ListWithoutSubTypes | ListOfDecimal | SetWithoutSubTypes | NilDecimalExtra

  const MAX_INT: Int64 := 0x7FFF_FFFF_FFFF_FFFF

  // ---- names ----

  predicate InTable(t: PropertyType) {
    t !in {UNSET, LIST, SET, MAP}
  }

  /** PropertyReverseMap; a missing key reads as the empty string. */
  function Name(t: PropertyType): string {
    match t
    case ID => "_id" case UUID => "_uuid" case FROM => "_from" case TO => "_to"
    case FROM_UUID => "_from_uuid" case TO_UUID => "_to_uuid" case IGNORE => "_ignore"
    case STRING => "string" case INT32 => "int32" case INT64 => "int64" case UINT32 => "uint32"
    case UINT64 => "uint64" case FLOAT => "float" case DOUBLE => "double" case DATETIME => "datetime"
    case TIMESTAMP => "timestamp" case TEXT => "text" case BLOB => "blob" case POINT => "point"
    case DECIMAL => "decimal" case NULL_ => "NULL_" case BOOL => "bool"
    case UNSET => "" case LIST => "" case SET => "" case MAP => ""
  }

  /** The driver's own entries of PropertyMap; a missing key reads as UNSET. */
  function PseudoTypeNamed(s: string): PropertyType {
    if s == "_id" then ID else if s == "_uuid" then UUID else if s == "_from" then FROM
    else if s == "_to" then TO else if s == "_from_uuid" then FROM_UUID else if s == "_to_uuid" then TO_UUID
    else if s == "_ignore" then IGNORE else UNSET
  }

  function NumberTypeNamed(s: string): PropertyType {
    if s == "int32" then INT32 else if s == "int64" then INT64 else if s == "uint32" then UINT32
    else if s == "uint64" then UINT64 else if s == "float" then FLOAT else if s == "double" then DOUBLE
    else if s == "decimal" then DECIMAL else UNSET
  }

  function OtherTypeNamed(s: string): PropertyType {
    if s == "string" then STRING else if s == "datetime" then DATETIME else if s == "timestamp" then TIMESTAMP
    else if s == "text" then TEXT else if s == "blob" then BLOB else if s == "point" then POINT
    else if s == "NULL_" then NULL_ else if s == "bool" then BOOL else UNSET
  }

  /** PropertyMap. */
  function TypeNamed(s: string): PropertyType {
    if PseudoTypeNamed(s) != UNSET then PseudoTypeNamed(s)
    else if NumberTypeNamed(s) != UNSET then NumberTypeNamed(s)
    else OtherTypeNamed(s)
  }

  predicate PlainChar(c: char) {
    'a' <= c <= 'z' || 'A' <= c <= 'Z' || '0' <= c <= '9' || c == '_'
  }

  predicate Plain(s: string) {
    forall c :: c in s ==> PlainChar(c)
  }

  lemma NameIsPlain(t: PropertyType)
    ensures Plain(Name(t)) && (Name(t) != "" <==> InTable(t))
  {
  }

  lemma PseudoNames(t: PropertyType)
    requires t in {ID, UUID, FROM, TO, FROM_UUID, TO_UUID, IGNORE}
    ensures PseudoTypeNamed(Name(t)) == t
  {
  }

  lemma NumberNames(t: PropertyType)
    requires t in {INT32, INT64, UINT32, UINT64, FLOAT, DOUBLE, DECIMAL}
    ensures PseudoTypeNamed(Name(t)) == UNSET && NumberTypeNamed(Name(t)) == t
  {
  }

  lemma OtherNames(t: PropertyType)
    requires t in {STRING, DATETIME, TIMESTAMP, TEXT, BLOB, POINT, NULL_, BOOL}
    ensures OtherTypeNamed(Name(t)) == t
  {
  }

  lemma OtherNamesAreNotPseudo(t: PropertyType)
    requires t in {STRING, DATETIME, TIMESTAMP, TEXT, BLOB, POINT, NULL_, BOOL}
    ensures PseudoTypeNamed(Name(t)) == UNSET
  {
  }

  lemma OtherNamesAreNotNumbers(t: PropertyType)
    requires t in {STRING, DATETIME, TIMESTAMP, TEXT, BLOB, POINT, NULL_, BOOL}
    ensures NumberTypeNamed(Name(t)) == UNSET
  {
  }

  lemma NameReadsBack(t: PropertyType)
    ensures TypeNamed(Name(t)) == if InTable(t) then t else UNSET
  {
    if !InTable(t) {
      assert Name(t) == "";
      return;
    }
    hide Name, PseudoTypeNamed, NumberTypeNamed, OtherTypeNamed;
    if t in {ID, UUID, FROM, TO, FROM_UUID, TO_UUID, IGNORE} {
      PseudoNames(t);
    } else if t in {INT32, INT64, UINT32, UINT64, FLOAT, DOUBLE, DECIMAL} {
      NumberNames(t);
    } else {
      OtherNames(t);
      OtherNamesAreNotPseudo(t);
      OtherNamesAreNotNumbers(t);
    }
  }

  lemma KnownPseudoName(s: string)
    ensures var t := PseudoTypeNamed(s); t == UNSET || (InTable(t) && Name(t) == s)
  {
  }

  lemma KnownNumberName(s: string)
    ensures var t := NumberTypeNamed(s); t == UNSET || (InTable(t) && Name(t) == s)
  {
  }

  lemma KnownOtherName(s: string)
    ensures var t := OtherTypeNamed(s); t == UNSET || (InTable(t) && Name(t) == s)
  {
  }

  /** Only table names are known. */
  lemma KnownName(s: string)
    ensures var t := TypeNamed(s); t == UNSET || (InTable(t) && Name(t) == s)
  {
    hide Name, PseudoTypeNamed, NumberTypeNamed, OtherTypeNamed, InTable;
    KnownPseudoName(s);
    KnownNumberName(s);
    KnownOtherName(s);
  }

  // ---- matchers ----

  /** strings.ReplaceAll(s, " ", ""). */
  function WithoutSpaces(s: string): string {
    if s == "" then ""
    else WithoutSpaces(s[..|s| - 1]) + (if s[|s| - 1] == ' ' then "" else [s[|s| - 1]])
  }

  predicate EndsInBrackets(s: string) {
    |s| >= 2 && s[|s| - 2..] == "[]"
  }

  /** strings.TrimSuffix(s, "[]"). */
  function Unbracketed(s: string): string {
    if EndsInBrackets(s) then s[..|s| - 2] else s
  }

  /** The first position of `c` at or after `i`, or the length. */
  function IndexFrom(s: string, i: nat, c: char): (k: nat)
    requires i <= |s|
    ensures i <= k <= |s| && (k < |s| ==> s[k] == c)
    ensures forall j :: i <= j < k ==> s[j] != c
    decreases |s| - i
  {
    if i == |s| || s[i] == c then i else IndexFrom(s, i + 1, c)
  }

  /** One bracketed alternative of the set pattern at position `i`: the text up to the first closing
      bracket, which must be there, and not be empty. */
  function Bracketed(s: string, i: nat, open: string, close: char): Option<string>
    requires i <= |s|
  {
    var from := i + |open|;
    if from <= |s| && s[i..from] == open then
      var to := IndexFrom(s, from, close);
      if from < to < |s| then Some(s[from..to]) else None
    else None
  }

  /** `set\(([^)]+)\)|set<([^>]+)>`, leftmost match from position `i` on. */
  function FindSet(s: string, i: nat): Option<string>
    requires i <= |s|
    decreases |s| - i
  {
    if Bracketed(s, i, "set(", ')').Some? then Bracketed(s, i, "set(", ')')
    else if Bracketed(s, i, "set<", '>').Some? then Bracketed(s, i, "set<", '>')
    else if i < |s| then FindSet(s, i + 1)
    else None
  }

  /** `^decimal\((\d+),(\d+)\)$`: the two digit strings. */
  function MatchDecimal(s: string): (r: Option<(string, string)>)
    ensures r.Some? ==> Decimal.AllDigits(r.value.0) && Decimal.AllDigits(r.value.1)
  {
    if |s| < 9 || s[..8] != "decimal(" || s[|s| - 1] != ')' then None
    else
      var body := s[8..|s| - 1];
      var k := IndexFrom(body, 0, ',');
      if k == |body| then None
      else if body[..k] == "" || body[k + 1..] == "" then None
      else if !Decimal.AllDigits(body[..k]) || !Decimal.AllDigits(body[k + 1..]) then None
      else Some((body[..k], body[k + 1..]))
  }

  /** strconv.Atoi on digits: saturates and reports when the number does not fit. */
  function Atoi(s: string): (Int64, bool)
    requires Decimal.AllDigits(s)
  {
    if Decimal.Value(s) <= MAX_INT then (Decimal.Value(s), true) else (MAX_INT, false)
  }

  // ---- printing and parsing ----

  function Printed(k: Kind): Result<string, TextError> {
    if k.ptype == LIST then
      if k.subTypes == [] then Err(ListWithoutSubTypes)
      else if k.subTypes[0] == DECIMAL then Err(ListOfDecimal)
      else Ok(Name(k.subTypes[0]) + "[]")
    else if k.ptype == SET then
      if k.subTypes == [] then Err(SetWithoutSubTypes)
      else Ok("set(" + Name(k.subTypes[0]) + ")")
    else if k.ptype == DECIMAL then
      if k.extra.None? then Err(NilDecimalExtra)
      else
        var digits := k.extra.value;
        Ok(Name(DECIMAL) + "(" + Decimal.Format(digits.precision) + "," + Decimal.Format(digits.scale) + ")")
    else Ok(Name(k.ptype))
  }

  /** A kind after parsing: element types are appended, and a decimal whose scale does not fit keeps
      the digits it had. Only the second Atoi error is looked at. */
  function Parsed(k: Kind, text: string): Kind {
    var s := WithoutSpaces(text);
    if EndsInBrackets(s) then k.(ptype := LIST, subTypes := k.subTypes + [TypeNamed(Unbracketed(s))])
    else if FindSet(s, 0).Some? then k.(ptype := SET, subTypes := k.subTypes + [TypeNamed(FindSet(s, 0).value)])
    else if MatchDecimal(s).Some? then
      var (precision, scale) := MatchDecimal(s).value;
      if Atoi(scale).1 then k.(ptype := DECIMAL, extra := Some(DecimalExtra(Atoi(precision).0, Atoi(scale).0)))
      else k.(ptype := DECIMAL)
    else k.(ptype := TypeNamed(s))
  }

  /** The fields of structs.Property that the grammar reads and writes. */
  class PropertyCell {
    var ptype: PropertyType
    var subTypes: seq<PropertyType>
    var decimalExtra: Option<DecimalExtra>

    function View(): Kind
      reads this
    {
      Kind(ptype, subTypes, decimalExtra)
    }

    method SetTypeByString(text: string)
      modifies this
      ensures View() == Parsed(old(View()), text)
    {
      var s := WithoutSpaces(text);
      if EndsInBrackets(s) {
        ptype := LIST;
        subTypes := subTypes + [TypeNamed(Unbracketed(s))];
        return;
      }
      var subType := FindSet(s, 0);
      if subType.Some? {
        ptype := SET;
        subTypes := subTypes + [TypeNamed(subType.value)];
        return;
      }
      var digits := MatchDecimal(s);
      if digits.Some? {
        ptype := DECIMAL;
        var (precision, _) := Atoi(digits.value.0);
        var (scale, ok) := Atoi(digits.value.1);
        if !ok {
          return;
        }
        decimalExtra := Some(DecimalExtra(precision, scale));
        return;
      }
      ptype := TypeNamed(s);
    }

    method GetStringType() returns (r: Result<string, TextError>)
      ensures r == Printed(View())
    {
      if ptype == LIST {
        if |subTypes| == 0 {
          return Err(ListWithoutSubTypes);
        }
        if subTypes[0] == DECIMAL {
          return Err(ListOfDecimal);
        }
        return Ok(Name(subTypes[0]) + "[]");
      }
      if ptype == SET {
        if |subTypes| == 0 {
          return Err(SetWithoutSubTypes);
        }
        return Ok("set(" + Name(subTypes[0]) + ")");
      }
      if ptype == DECIMAL {
        if decimalExtra.None? {
          return Err(NilDecimalExtra);
        }
        var extra := decimalExtra.value;
        return Ok(Name(DECIMAL) + "(" + Decimal.Format(extra.precision) + "," + Decimal.Format(extra.scale) + ")");
      }
      return Ok(Name(ptype));
    }
  }

  // ---- what the matchers do on printed text ----

  lemma {:induction false} NothingToRemove(s: string)
    requires ' ' !in s
    ensures WithoutSpaces(s) == s
    decreases |s|
  {
    if s != "" {
      NothingToRemove(s[..|s| - 1]);
      assert s == s[..|s| - 1] + [s[|s| - 1]];
    }
  }

  /** Without the letter s, or without an opening bracket, there is no set. */
  lemma {:induction false} NoSet(s: string, i: nat)
    requires i <= |s|
    requires (forall j :: i <= j < |s| ==> s[j] != 's') || ('(' !in s && '<' !in s)
    ensures FindSet(s, i).None?
    decreases |s| - i
  {
    if i + 4 <= |s| {
      var four := s[i..i + 4];
      assert four[0] == s[i] && four[3] == s[i + 3] && s[i + 3] in s;
      assert "set("[0] == 's' && "set("[3] == '(' && "set<"[0] == 's' && "set<"[3] == '<';
    }
    if i < |s| {
      NoSet(s, i + 1);
    }
  }

  lemma SetOf(name: string)
    requires Plain(name)
    ensures var s := "set(" + name + ")";
      ' ' !in s && !EndsInBrackets(s) && FindSet(s, 0) == (if name == "" then None else Some(name))
  {
    var s := "set(" + name + ")";
    assert forall j :: 4 <= j < |s| - 1 ==> s[j] == name[j - 4] && s[j] in name;
    assert s[|s| - 1] == ')' && s[0..4] == "set(";
    assert s[|s| - 2..][1] == ')';
    assert IndexFrom(s, 4, ')') == |s| - 1;
    if name == "" {
      assert s == "set()";
      assert s[0..4] != "set<" by { assert s[0..4][3] == '('; }
      NoSet(s, 1);
    } else {
      assert s[4..|s| - 1] == name;
    }
  }

  lemma ListOf(name: string)
    requires Plain(name)
    ensures var s := name + "[]"; ' ' !in s && EndsInBrackets(s) && Unbracketed(s) == name
  {
  }

  lemma ScalarText(name: string)
    requires Plain(name)
    ensures ' ' !in name && !EndsInBrackets(name) && FindSet(name, 0).None? && MatchDecimal(name).None?
  {
    NoSet(name, 0);
    if |name| >= 2 {
      assert name[|name| - 2..][0] in name && name[|name| - 1] in name;
    }
  }

  /** No name of the table has a bracket in it. */
  lemma UnknownText(s: string)
    requires '(' in s
    ensures TypeNamed(s) == UNSET
  {
    KnownName(s);
    NameIsPlain(TypeNamed(s));
  }

  lemma FormatChars(i: int)
    ensures Decimal.Format(i) != ""
    ensures forall c :: c in Decimal.Format(i) ==> Decimal.IsDigit(c) || c == '-'
    ensures Decimal.AllDigits(Decimal.Format(i)) <==> i >= 0
    ensures i >= 0 ==> Decimal.Value(Decimal.Format(i)) == i
  {
    if i >= 0 {
      Decimal.ValueOfItoa(i);
    } else {
      assert '-' in Decimal.Format(i);
    }
  }

  lemma SplitAtComma(a: string, b: string)
    requires ',' !in a
    ensures var body := a + "," + b;
      IndexFrom(body, 0, ',') == |a| && body[..|a|] == a && body[|a| + 1..] == b
  {
    var body := a + "," + b;
    assert body[|a|] == ',';
    assert forall j :: 0 <= j < |a| ==> body[j] == a[j] && a[j] in a;
  }

  lemma MatchOf(a: string, b: string)
    requires ',' !in a
    ensures MatchDecimal("decimal(" + (a + "," + b) + ")")
         == if a != "" && b != "" && Decimal.AllDigits(a) && Decimal.AllDigits(b) then Some((a, b)) else None
  {
    var body := a + "," + b;
    var s := "decimal(" + body + ")";
    assert s[..8] == "decimal(" && s[8..|s| - 1] == body;
    SplitAtComma(a, b);
    hide IndexFrom, Decimal.AllDigits;
  }

  lemma BracketedText(body: string)
    requires 's' !in body && ' ' !in body
    ensures var s := "decimal(" + body + ")";
      '(' in s && ' ' !in s && !EndsInBrackets(s) && FindSet(s, 0).None?
  {
    var s := "decimal(" + body + ")";
    assert s[|s| - 2..][1] == ')' && s[7] == '(';
    assert forall c :: c in s ==> c in "decimal(" || c in body || c == ')';
    assert 's' !in "decimal(" && ' ' !in "decimal(";
    assert forall j :: 0 <= j < |s| ==> s[j] in s;
    NoSet(s, 0);
  }

  // ---- round trips ----

  /** What printing keeps of a kind: the type, the first element type, a decimal's digits. */
  function Kept(k: Kind): Kind {
    if k.ptype == LIST || k.ptype == SET then Kind(k.ptype, if k.subTypes == [] then [] else [k.subTypes[0]], None)
    else if k.ptype == DECIMAL then Kind(DECIMAL, [], k.extra)
    else Kind(k.ptype, [], None)
  }

  /** The kinds whose text reads back. */
  predicate Readable(k: Kind) {
    match k.ptype
    case LIST => k.subTypes != [] && k.subTypes[0] != DECIMAL && (InTable(k.subTypes[0]) || k.subTypes[0] == UNSET)
    case SET => k.subTypes != [] && InTable(k.subTypes[0])
    case DECIMAL => k.extra.Some? && k.extra.value.precision >= 0 && k.extra.value.scale >= 0
    case MAP => false
    case _ => true
  }

  /** SetTypeByString on a fresh property restores what GetStringType printed exactly for the readable
      kinds: lists of a non-decimal table type or of UNSET, sets of a table type, decimals with
      non-negative digits, and every other type but MAP. */
  lemma PrintedReadsBackExactly(k: Kind)
    requires Printed(k).Ok?
    ensures Parsed(FRESH, Printed(k).value) == Kept(k) <==> Readable(k)
  {
    if k.ptype == LIST {
      ListReadsBack(k.subTypes[0]);
    } else if k.ptype == SET {
      SetReadsBack(k.subTypes[0]);
    } else if k.ptype == DECIMAL {
      DecimalReadsBack(k.extra.value);
    } else {
      ScalarReadsBack(k.ptype);
    }
  }

  lemma ListReadsBack(t: PropertyType)
    ensures Parsed(FRESH, Name(t) + "[]") == Kind(LIST, [if InTable(t) then t else UNSET], None)
  {
    NameIsPlain(t);
    ListOf(Name(t));
    NothingToRemove(Name(t) + "[]");
    NameReadsBack(t);
    hide Name, TypeNamed, EndsInBrackets;
    assert FRESH.subTypes + [TypeNamed(Name(t))] == [TypeNamed(Name(t))];
  }

  lemma SetIsNoDecimal(name: string)
    ensures MatchDecimal("set(" + name + ")").None?
  {
    var s := "set(" + name + ")";
    assert s[0] == 's';
    if |s| >= 8 {
      assert s[..8][0] == 's' && "decimal("[0] == 'd';
    }
  }

  lemma SetReadsBack(t: PropertyType)
    ensures Parsed(FRESH, "set(" + Name(t) + ")") == if InTable(t) then Kind(SET, [t], None) else FRESH
  {
    hide Name, TypeNamed, EndsInBrackets, FindSet, MatchDecimal, InTable, WithoutSpaces, Plain;
    var s := "set(" + Name(t) + ")";
    NameIsPlain(t);
    SetOf(Name(t));
    NothingToRemove(s);
    NameReadsBack(t);
    assert s[3] == '(';
    UnknownText(s);
    SetIsNoDecimal(Name(t));
    assert FRESH.subTypes + [TypeNamed(Name(t))] == [TypeNamed(Name(t))];
  }

  lemma DecimalReadsBack(extra: DecimalExtra)
    ensures var text := Name(DECIMAL) + "(" + Decimal.Format(extra.precision) + "," + Decimal.Format(extra.scale) + ")";
      Parsed(FRESH, text) == if extra.precision >= 0 && extra.scale >= 0 then Kind(DECIMAL, [], Some(extra)) else FRESH
  {
    var a, b := Decimal.Format(extra.precision), Decimal.Format(extra.scale);
    FormatChars(extra.precision);
    FormatChars(extra.scale);
    hide Decimal.Format, Parsed, MatchDecimal, FindSet, EndsInBrackets, TypeNamed, Decimal.AllDigits, Decimal.Value;
    OneText(a, b);
    hide Name;
    var text := "decimal(" + (a + "," + b) + ")";
    BracketedText(a + "," + b);
    MatchOf(a, b);
    UnknownText(text);
    DecimalParsed(text, extra, a, b);
  }

  lemma OneText(a: string, b: string)
    ensures Name(DECIMAL) + "(" + a + "," + b + ")" == "decimal(" + (a + "," + b) + ")"
  {
    assert "decimal" + "(" == "decimal(";
  }

  lemma DecimalParsed(text: string, extra: DecimalExtra, a: string, b: string)
    requires ' ' !in text && !EndsInBrackets(text) && FindSet(text, 0).None? && TypeNamed(text) == UNSET
    requires Decimal.AllDigits(a) <==> extra.precision >= 0
    requires Decimal.AllDigits(b) <==> extra.scale >= 0
    requires extra.precision >= 0 ==> Decimal.Value(a) == extra.precision
    requires extra.scale >= 0 ==> Decimal.Value(b) == extra.scale
    requires MatchDecimal(text) == if Decimal.AllDigits(a) && Decimal.AllDigits(b) then Some((a, b)) else None
    ensures Parsed(FRESH, text)
         == if extra.precision >= 0 && extra.scale >= 0 then Kind(DECIMAL, [], Some(extra)) else FRESH
  {
    NothingToRemove(text);
    hide EndsInBrackets, FindSet, TypeNamed, MatchDecimal, WithoutSpaces, Decimal.AllDigits, Decimal.Value;
  }

  lemma ScalarReadsBack(t: PropertyType)
    ensures Parsed(FRESH, Name(t)) == Kind(if InTable(t) then t else UNSET, [], None)
  {
    NameIsPlain(t);
    ScalarText(Name(t));
    NothingToRemove(Name(t));
    NameReadsBack(t);
    hide Name, TypeNamed, EndsInBrackets, FindSet, MatchDecimal;
  }

  /** Whatever text the server sends: printing what was parsed and parsing that again changes nothing,
      except for a set of an unknown type, which is forgotten. */
  lemma ParsedIsStableExactly(text: string)
    requires Printed(Parsed(FRESH, text)).Ok?
    ensures var k := Parsed(FRESH, text);
      Parsed(FRESH, Printed(k).value) == k <==> k != Kind(SET, [UNSET], None)
  {
    var k := Parsed(FRESH, text);
    ParsedShape(text);
    PrintedReadsBackExactly(k);
  }

  lemma ParsedShape(text: string)
    ensures var k := Parsed(FRESH, text);
      && k.ptype != MAP && k == Kept(k)
      && (k.ptype == LIST || k.ptype == SET ==> |k.subTypes| == 1 && (InTable(k.subTypes[0]) || k.subTypes[0] == UNSET))
      && (k.extra.Some? ==> k.extra.value.precision >= 0 && k.extra.value.scale >= 0)
  {
    hide TypeNamed, Name, FindSet, MatchDecimal, WithoutSpaces, EndsInBrackets, Decimal.AllDigits, Decimal.Value;
    var s := WithoutSpaces(text);
    if EndsInBrackets(s) {
      KnownName(Unbracketed(s));
    } else if FindSet(s, 0).Some? {
      KnownName(FindSet(s, 0).value);
    } else {
      KnownName(s);
    }
  }

  // ---- a property that already has a type ----

  /** Parsing over an old kind adds to its element types and keeps its digits unless there are new ones. */
  lemma ParsedOver(k: Kind, text: string)
    ensures var f := Parsed(FRESH, text);
      Parsed(k, text) == Kind(f.ptype, k.subTypes + f.subTypes, if f.extra.Some? then f.extra else k.extra)
  {
    hide WithoutSpaces, FindSet, MatchDecimal, EndsInBrackets, TypeNamed, Decimal.AllDigits, Decimal.Value, Unbracketed;
    var f := Parsed(FRESH, text);
    assert FRESH.subTypes + f.subTypes == f.subTypes && k.subTypes + [] == k.subTypes;
  }

  /** The two types print alike. */
  predicate SameName(t: PropertyType, u: PropertyType) {
    t == u || (!InTable(t) && !InTable(u))
  }

  lemma NamesAgreeExactly(t: PropertyType, u: PropertyType)
    ensures Name(t) == Name(u) <==> SameName(t, u)
    ensures Name(t) + "[]" == Name(u) + "[]" <==> SameName(t, u)
    ensures "set(" + Name(t) + ")" == "set(" + Name(u) + ")" <==> SameName(t, u)
  {
    NameReadsBack(t);
    NameReadsBack(u);
    NameIsPlain(t);
    NameIsPlain(u);
    hide Name, TypeNamed;
    var a, b := Name(t), Name(u);
    assert (a + "[]")[..|a + "[]"| - 2] == a && (b + "[]")[..|b + "[]"| - 2] == b;
    assert ("set(" + a + ")")[4..|a| + 4] == a && ("set(" + b + ")")[4..|b| + 4] == b;
    assert |"set(" + a + ")"| == |a| + 5 && |"set(" + b + ")"| == |b| + 5;
  }

  /** The old kind does not get in the way of the new text. */
  predicate OldAgrees(k: Kind, f: Kind) {
    match f.ptype
    case LIST => k.subTypes == [] || f.subTypes == [] || SameName(k.subTypes[0], f.subTypes[0])
    case SET => k.subTypes == [] || f.subTypes == [] || SameName(k.subTypes[0], f.subTypes[0])
    case DECIMAL => f.extra.Some? || k.extra.None?
    case _ => true
  }

  /** For any property: after SetTypeByString, GetStringType prints what a fresh property would print if and
      only if the first element type it had before prints like the new one, and "decimal" alone does not
      meet old digits. Otherwise it prints the old element type, or the old digits. */
  lemma PrintedOverOldExactly(k: Kind, text: string)
    ensures var f, p := Parsed(FRESH, text), Parsed(k, text);
      && (Printed(p) == Printed(f) <==> OldAgrees(k, f))
      && (k.subTypes != [] && f.subTypes != [] ==> Printed(p) == Printed(f.(subTypes := [k.subTypes[0]])))
      && (k.extra.Some? && f.extra.None? ==> Printed(p) == Printed(Kind(f.ptype, k.subTypes + f.subTypes, k.extra)))
  {
    var f, p := Parsed(FRESH, text), Parsed(k, text);
    ParsedOver(k, text);
    ParsedShape(text);
    hide Parsed, Name, Decimal.Format;
    if (f.ptype == LIST || f.ptype == SET) && k.subTypes != [] {
      NamesAgreeExactly(k.subTypes[0], f.subTypes[0]);
    }
  }

  lemma TwoNames()
    ensures Name(INT32) + "[]" == "int32[]" && Name(STRING) + "[]" == "string[]"
  {
  }

  /** A list of strings that is told to be a list of int32 still says string. */
  lemma OldElementTypeIsPrinted()
    ensures Parsed(Kind(LIST, [STRING], None), "int32[]") == Kind(LIST, [STRING, INT32], None)
    ensures Printed(Parsed(Kind(LIST, [STRING], None), "int32[]")) == Ok("string[]")
  {
    hide Name, Parsed;
    TwoNames();
    ListReadsBack(INT32);
    ParsedOver(Kind(LIST, [STRING], None), "int32[]");
    assert [STRING] + [INT32] == [STRING, INT32];
  }

  // ---- blanks, angle brackets and pseudo types ----

  lemma {:induction false} BlankDropped(a: string, b: string)
    ensures WithoutSpaces(a + " " + b) == WithoutSpaces(a + b)
    decreases |b|
  {
    if b == "" {
      assert a + " " + b == a + " " && a + b == a;
      assert (a + " ")[..|a|] == a;
    } else {
      var front, c := b[..|b| - 1], b[|b| - 1];
      BlankDropped(a, front);
      assert (a + " " + b)[..|a + " " + b| - 1] == a + " " + front;
      assert (a + b)[..|a + b| - 1] == a + front;
    }
  }

  /** A blank anywhere in the text makes no difference. */
  lemma BlanksDoNotMatter(k: Kind, a: string, b: string)
    ensures Parsed(k, a + " " + b) == Parsed(k, a + b)
  {
    BlankDropped(a, b);
    hide WithoutSpaces, FindSet, MatchDecimal, EndsInBrackets, TypeNamed, Decimal.AllDigits, Decimal.Value, Unbracketed;
  }

  lemma AngledSetOf(name: string)
    requires Plain(name)
    ensures var s := "set<" + name + ">";
      ' ' !in s && !EndsInBrackets(s) && FindSet(s, 0) == (if name == "" then None else Some(name))
  {
    var s := "set<" + name + ">";
    assert forall j :: 4 <= j < |s| - 1 ==> s[j] == name[j - 4] && s[j] in name;
    assert s[|s| - 1] == '>' && s[0..4] == "set<" && s[0..4][3] == '<';
    assert s[|s| - 2..][1] == '>';
    assert IndexFrom(s, 4, '>') == |s| - 1;
    assert s[0..4] != "set(" by { assert "set("[3] == '('; }
    if name == "" {
      assert s == "set<>";
      NoSet(s, 1);
    } else {
      assert s[4..|s| - 1] == name;
    }
  }

  lemma AngledSetIsNoDecimal(name: string)
    ensures MatchDecimal("set<" + name + ">").None?
  {
    var s := "set<" + name + ">";
    assert s[0] == 's';
    if |s| >= 8 {
      assert s[..8][0] == 's' && "decimal("[0] == 'd';
    }
  }

  lemma NotAName(s: string)
    requires '<' in s
    ensures TypeNamed(s) == UNSET
  {
    KnownName(s);
    NameIsPlain(TypeNamed(s));
  }

  /** A set may be written with either kind of bracket. */
  lemma SetInAngles(t: PropertyType)
    ensures Parsed(FRESH, "set<" + Name(t) + ">") == Parsed(FRESH, "set(" + Name(t) + ")")
  {
    hide Name, TypeNamed, EndsInBrackets, FindSet, MatchDecimal, InTable, WithoutSpaces, Plain;
    var s := "set<" + Name(t) + ">";
    SetReadsBack(t);
    NameIsPlain(t);
    AngledSetOf(Name(t));
    NothingToRemove(s);
    NameReadsBack(t);
    assert s[3] == '<';
    NotAName(s);
    AngledSetIsNoDecimal(Name(t));
    hide Parsed;
    ParsedSet(s, t);
  }

  lemma ParsedSet(s: string, t: PropertyType)
    requires WithoutSpaces(s) == s && !EndsInBrackets(s) && MatchDecimal(s).None? && TypeNamed(s) == UNSET
    requires FindSet(s, 0) == if Name(t) == "" then None else Some(Name(t))
    requires (Name(t) != "" <==> InTable(t)) && TypeNamed(Name(t)) == if InTable(t) then t else UNSET
    ensures Parsed(FRESH, s) == if InTable(t) then Kind(SET, [t], None) else FRESH
  {
    hide Name, TypeNamed, EndsInBrackets, FindSet, MatchDecimal, InTable, WithoutSpaces;
    assert FRESH.subTypes + [TypeNamed(Name(t))] == [TypeNamed(Name(t))];
  }

  /** The properties that are not sent are those whose type name begins with an underscore. */
  lemma StoredExactly(p: Property)
    ensures p.Stored() <==> !(Name(p.ptype) != "" && Name(p.ptype)[0] == '_')
  {
  }

  /** A set is found behind any text without an s, whatever follows it. */
  lemma {:induction false} SetIsFoundBehind(before: string, name: string, after: string, i: nat)
    requires 's' !in before && Plain(name) && name != "" && i <= |before|
    ensures FindSet(before + ("set(" + name + ")" + after), i) == Some(name)
    decreases |before| - i
  {
    var s := before + ("set(" + name + ")" + after);
    if i < |before| {
      assert s[i] == before[i] && before[i] in before;
      assert i + 4 <= |s| ==> s[i..i + 4][0] != 's';
      assert "set("[0] == 's' && "set<"[0] == 's';
      assert Bracketed(s, i, "set(", ')').None? && Bracketed(s, i, "set<", '>').None?;
      hide Bracketed, Plain;
      SetIsFoundBehind(before, name, after, i + 1);
    } else {
      SetHere(before, name, after);
    }
  }

  lemma SetHere(before: string, name: string, after: string)
    requires Plain(name) && name != ""
    ensures Bracketed(before + ("set(" + name + ")" + after), |before|, "set(", ')') == Some(name)
  {
    var tail := "set(" + name + ")" + after;
    var s, from := before + tail, |before| + 4;
    TailOfSet(name, after);
    assert s[|before|..] == tail;
    assert s[|before|..from] == tail[..4];
    assert s[from..from + |name|] == tail[4..4 + |name|];
    assert s[from + |name|] == tail[4 + |name|];
    forall j | from <= j < from + |name| ensures s[j] != ')' {
      assert s[j] == name[j - from] && name[j - from] in name;
    }
    hide Plain;
    IndexIs(s, from, ')', from + |name|);
    hide IndexFrom;
  }

  lemma TailOfSet(name: string, after: string)
    ensures var tail := "set(" + name + ")" + after;
      |tail| > 4 + |name| && tail[..4] == "set(" && tail[4..4 + |name|] == name && tail[4 + |name|] == ')'
  {
  }

  lemma IndexIs(s: string, i: nat, c: char, k: nat)
    requires i <= k < |s| && s[k] == c && forall j :: i <= j < k ==> s[j] != c
    ensures IndexFrom(s, i, c) == k
  {
  }

  /** Without its closing bracket there is no set. */
  lemma UnclosedSetIsNoSet(name: string)
    requires Plain(name) && 's' !in name
    ensures FindSet("set(" + name, 0).None? && FindSet("set<" + name, 0).None?
  {
    UnclosedBracket("set(", name);
    UnclosedBracket("set<", name);
  }

  lemma UnclosedBracket(open: string, name: string)
    requires Plain(name) && 's' !in name && (open == "set(" || open == "set<")
    ensures FindSet(open + name, 0).None?
  {
    var s := open + name;
    assert forall j :: 4 <= j < |s| ==> s[j] == name[j - 4] && s[j] in name;
    assert s[0..4] == open && open[3] != ')' && open[3] != '>';
    assert IndexFrom(s, 4, ')') == |s| && IndexFrom(s, 4, '>') == |s|;
    assert s[1] == open[1] == 'e' && s[2] == open[2] == 't' && s[3] == open[3];
    NoSet(s, 1);
  }

  /** For any digits: a scale beyond 64 bits leaves the old digits, a precision beyond them is cut to the
      largest number, without a word. */
  lemma DigitsBeyondInt(k: Kind, a: string, b: string)
    requires a != "" && b != "" && Decimal.AllDigits(a) && Decimal.AllDigits(b)
    ensures var p := Parsed(k, "decimal(" + (a + "," + b) + ")");
      && p.ptype == DECIMAL && p.subTypes == k.subTypes
      && p.extra == if Decimal.Value(b) > 0x7fff_ffff_ffff_ffff then k.extra
                    else if Decimal.Value(a) > 0x7fff_ffff_ffff_ffff
                    then Some(DecimalExtra(0x7fff_ffff_ffff_ffff, Decimal.Value(b)))
                    else Some(DecimalExtra(Decimal.Value(a), Decimal.Value(b)))
  {
    var text := "decimal(" + (a + "," + b) + ")";
    assert forall c :: c in a + "," + b ==> c in a || c == ',' || c in b;
    hide MatchDecimal, FindSet, EndsInBrackets, WithoutSpaces, Parsed, Decimal.Value;
    BracketedText(a + "," + b);
    MatchOf(a, b);
    NothingToRemove(text);
    hide Decimal.AllDigits;
    ParsedDigits(k, text, a, b);
  }

  lemma ParsedDigits(k: Kind, text: string, a: string, b: string)
    requires WithoutSpaces(text) == text && !EndsInBrackets(text) && FindSet(text, 0).None?
    requires MatchDecimal(text) == Some((a, b))
    ensures Decimal.AllDigits(a) && Decimal.AllDigits(b)
    ensures Parsed(k, text) == if !Atoi(b).1 then k.(ptype := DECIMAL)
                               else k.(ptype := DECIMAL, extra := Some(DecimalExtra(Atoi(a).0, Atoi(b).0)))
  {
    hide MatchDecimal, FindSet, EndsInBrackets, WithoutSpaces, Decimal.AllDigits, Decimal.Value, TypeNamed;
  }

  /** Which kinds cannot be printed, and why: a list of decimals, a list or set of nothing, a decimal without
      digits. */
  lemma UnprintableExactly(k: Kind)
    ensures Printed(k) == Err(ListWithoutSubTypes) <==> k.ptype == LIST && k.subTypes == []
    ensures Printed(k) == Err(ListOfDecimal) <==> k.ptype == LIST && k.subTypes != [] && k.subTypes[0] == DECIMAL
    ensures Printed(k) == Err(SetWithoutSubTypes) <==> k.ptype == SET && k.subTypes == []
    ensures Printed(k) == Err(NilDecimalExtra) <==> k.ptype == DECIMAL && k.extra.None?
    ensures Printed(k).Ok? <==>
      && (k.ptype == LIST ==> k.subTypes != [] && k.subTypes[0] != DECIMAL)
      && (k.ptype == SET ==> k.subTypes != [])
      && (k.ptype == DECIMAL ==> k.extra.Some?)
  {
    hide Name, Decimal.Format;
  }
}
