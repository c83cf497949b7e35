// What the codec makes of values that are not of their property type's own kind, of nil, and of points:
// stated on numbers and literal texts (sdk/utils/serilizer.go, sdk/utils/null.go).
module ForeignKinds {
  import opened Base
  import opened Types
  import opened Codec
  import opened CodecLaws
  import Decimal
  import Wire

  // ---- numbers under word types ----

  predicate Integer(v: GoValue) {
    v.Int32Value? || v.IntValue? || v.Int64Value? || v.Uint32Value? || v.Uint64Value?
  }

  predicate Number(v: GoValue) {
    Integer(v) || v.Float32Value? || v.Float64Value?
  }

  /** How many bytes a number takes, and their big-endian word: two's complement for signed kinds. A Go `int`
      takes four bytes. */
  function WordSent(v: GoValue): (nat, nat)
    requires Number(v)
  {
    match v
    case Int32Value(i) => (4, i % 0x1_0000_0000)
    case IntValue(i) => (4, i % 0x1_0000_0000)
    case Int64Value(i) => (8, i % 0x1_0000_0000_0000_0000)
    case Uint32Value(n) => (4, n)
    case Uint64Value(n) => (8, n)
    case Float32Value(n) => (4, n)
    case Float64Value(n) => (8, n)
  }

  /** What a reader of `width` bytes makes of a word sent in `size` bytes: it keeps the high half of a longer
      one and reads a shorter one as zero. */
  function WordRead(size: nat, n: nat, width: nat): nat {
    if size == width then n else if size > width then n / 0x1_0000_0000 else 0
  }

  /** The value a word type makes of a word. */
  predicate ReadsAs(r: GoValue, t: PropertyType, n: nat)
    requires WordType(t)
  {
    match t
    case INT32 => r.Int32Value? && r.i32 % 0x1_0000_0000 == n
    case INT64 => r.Int64Value? && r.i64 % 0x1_0000_0000_0000_0000 == n
    case UINT32 => r.Uint32Value? && r.u32 == n
    case UINT64 => r.Uint64Value? && r.u64 == n
    case FLOAT => r.Float32Value? && r.bits32 == n
    case DOUBLE => r.Float64Value? && r.bits64 == n
    case TIMESTAMP => r.Timestamp? && r.seconds == n
    case DATETIME => if n == 0 then r == Uint64Value(0) else r.Time? && r.datetime == n
  }

  lemma NumberBytes(v: GoValue, t: PropertyType, subs: seq<PropertyType>, req: Request)
    requires Number(v) && (WordType(t) || t in {STRING, TEXT, BLOB})
    ensures var (size, n) := WordSent(v); (size == 4 || size == 8) && Encode(v, t, subs, req) == Ok(BigEndian(n, size))
  {
    hide BigEndian, NullBytes;
  }

  lemma WordSentFits(v: GoValue)
    requires Number(v)
    ensures var (size, n) := WordSent(v); n < Pow256(size)
  {
    WordSizes();
  }

  /** The first four bytes of an eight-byte word are its high half. */
  lemma HighHalf(n: nat)
    ensures BigEndian(n, 8)[..4] == BigEndian(n / 0x1_0000_0000, 4)
  {
    LastByte(n, 7);
    LastByte(n / 0x100, 6);
    LastByte(n / 0x100 / 0x100, 5);
    LastByte(n / 0x100 / 0x100 / 0x100, 4);
    assert n / 0x100 / 0x100 / 0x100 / 0x100 == n / 0x1_0000_0000;
    hide BigEndian;
  }

  lemma LastByte(n: nat, width: nat)
    ensures BigEndian(n, width + 1)[..width] == BigEndian(n / 0x100, width)
    ensures width >= 4 ==> BigEndian(n, width + 1)[..4] == BigEndian(n / 0x100, width)[..4]
  {
    assert BigEndian(n, width + 1) == BigEndian(n / 0x100, width) + [n % 0x100];
  }

  /** Reading the bytes of a word at the width of a type. */
  lemma WordIsRead(size: nat, n: nat, width: nat)
    requires (size == 4 || size == 8) && (width == 4 || width == 8) && n < Pow256(size)
    ensures width == 4 ==> ReadWord32(BigEndian(n, size)) == WordRead(size, n, width)
    ensures width == 8 ==> ReadWord64(BigEndian(n, size)) == WordRead(size, n, width)
  {
    WordSizes();
    hide BigEndian, FromBigEndian;
    if size == 4 && width == 4 {
      WordRoundTrip32(n);
    } else if size == 8 && width == 8 {
      WordRoundTrip64(n);
    } else if size == 8 {
      HighHalf(n);
      WordRoundTrip32(n / 0x1_0000_0000);
      assert BigEndian(n / 0x1_0000_0000, 4)[..4] == BigEndian(n / 0x1_0000_0000, 4);
    }
  }

  lemma WordIsDecoded(bs: Bytes, t: PropertyType, n: nat)
    requires WordType(t) && bs != []
    requires Width(t) == 4 ==> ReadWord32(bs) == n
    requires Width(t) == 8 ==> ReadWord64(bs) == n
    ensures DecodeScalar(bs, t).Ok? && ReadsAs(DecodeScalar(bs, t).value, t, n)
  {
    hide ReadWord32, ReadWord64;
  }

  lemma WordIsNull(size: nat, n: nat, t: PropertyType)
    requires WordType(t) && n < Pow256(size)
    ensures IsNull(t, BigEndian(n, size)) <==> size == Width(t) && n == NullWord(t)
  {
    NullPatternIsNullWord(t);
    assert IsNull(t, BigEndian(n, size)) <==> NullBytes(t) == Some(BigEndian(n, size)) by { hide NullBytes, BigEndian; }
    hide *;
    if size == Width(t) {
      EncodesPattern(n, NullBytes(t).value);
    }
  }

  /** What the bytes of a word decode to under a word type. */
  lemma WordBecomes(size: nat, n: nat, t: PropertyType, subs: seq<PropertyType>)
    requires (size == 4 || size == 8) && n < Pow256(size) && WordType(t)
    ensures var r := Decode(BigEndian(n, size), t, subs);
      r.Ok? && if size == Width(t) && n == NullWord(t) then r.value == Nil
               else ReadsAs(r.value, t, WordRead(size, n, Width(t)))
  {
    hide BigEndian, DecodeScalar, ReadsAs, WordRead, NullWord, IsNull, ReadWord32, ReadWord64;
    WordIsNull(size, n, t);
    WordIsRead(size, n, Width(t));
    WordIsDecoded(BigEndian(n, size), t, WordRead(size, n, Width(t)));
  }

  /** Any Go number under any word type: always sent, and read back as the word it was sent as, cut or zeroed
      when the widths differ; only the null word of the type's own width becomes nil. */
  lemma NumberBecomes(v: GoValue, t: PropertyType, subs: seq<PropertyType>, req: Request)
    requires Number(v) && WordType(t)
    ensures Encode(v, t, subs, req).Ok?
    ensures var (size, n) := WordSent(v); var r := Decode(Encode(v, t, subs, req).value, t, subs);
      r.Ok? && if size == Width(t) && n == NullWord(t) then r.value == Nil
               else ReadsAs(r.value, t, WordRead(size, n, Width(t)))
  {
    hide Encode, Decode, WordSent, ReadsAs, NullWord;
    NumberBytes(v, t, subs, req);
    WordSentFits(v);
    WordBecomes(WordSent(v).0, WordSent(v).1, t, subs);
  }

  /** A Go `int` that fits 32 bits comes back as that number under INT32, and modulo 2^32 under UINT32 and
      TIMESTAMP, apart from the three that read as null. */
  lemma PlainIntComesBack(i: Int64, subs: seq<PropertyType>, req: Request)
    requires -0x8000_0000 <= i < 0x8000_0000
    ensures Encode(IntValue(i), INT32, subs, req).Ok? && Encode(IntValue(i), UINT32, subs, req).Ok?
    ensures Encode(IntValue(i), TIMESTAMP, subs, req).Ok?
    ensures Decode(Encode(IntValue(i), INT32, subs, req).value, INT32, subs)
         == Ok(if i == 0x7fff_ffff then Nil else Int32Value(i))
    ensures Decode(Encode(IntValue(i), UINT32, subs, req).value, UINT32, subs)
         == Ok(if i == -1 then Nil else Uint32Value(i % 0x1_0000_0000))
    ensures Decode(Encode(IntValue(i), TIMESTAMP, subs, req).value, TIMESTAMP, subs)
         == Ok(if i == -1 then Nil else Timestamp(i % 0x1_0000_0000))
  {
    hide Encode, Decode;
    NumberBecomes(IntValue(i), INT32, subs, req);
    NumberBecomes(IntValue(i), UINT32, subs, req);
    NumberBecomes(IntValue(i), TIMESTAMP, subs, req);
  }

  /** Bytes that are too few for the word read as zero; no bytes at all are nil for times. */
  lemma ShortBytesReadAsZero(bs: Bytes, t: PropertyType, subs: seq<PropertyType>)
    requires WordType(t) && |bs| < Width(t)
    ensures var r := Decode(bs, t, subs);
      r.Ok? && if bs == [] && t in {DATETIME, TIMESTAMP} then r.value == Nil else ReadsAs(r.value, t, 0)
  {
    NullPatternIsNullWord(t);
    hide NullBytes, FromBigEndian, NullWord;
  }

  // ---- text and bytes ----

  lemma BytesDecode(bs: Bytes, t: PropertyType, subs: seq<PropertyType>)
    requires t in {STRING, TEXT, BLOB} && |bs| > 1
    ensures Decode(bs, t, subs) == Ok(if t.BLOB? then BytesValue(bs) else Str(bs))
  {
  }

  /** Under a type of text or bytes a number arrives as its big-endian bytes. */
  lemma NumberAsBytes(v: GoValue, t: PropertyType, subs: seq<PropertyType>, req: Request)
    requires Number(v) && t in {STRING, TEXT, BLOB}
    ensures var (size, n) := WordSent(v); var r := Encode(v, t, subs, req);
      && r.Ok? && |r.value| == size && FromBigEndian(r.value) == n
      && Decode(r.value, t, subs) == Ok(if t.BLOB? then BytesValue(r.value) else Str(r.value))
  {
    hide Encode, Decode, BigEndian, FromBigEndian, WordSent;
    NumberBytes(v, t, subs, req);
    WordSentFits(v);
    FromBigEndianInverts(WordSent(v).1, WordSent(v).0);
    BytesDecode(Encode(v, t, subs, req).value, t, subs);
  }

  /** Texts and byte slices are sent as they are by every type that does not parse them. */
  lemma TextsAreSentAsTheyAre(s: Bytes, t: PropertyType, subs: seq<PropertyType>, req: Request)
    ensures t !in {BOOL, DATETIME, TIMESTAMP, POINT, LIST, SET, MAP} ==> Encode(Str(s), t, subs, req) == Ok(s)
    ensures t !in {BOOL, DECIMAL, LIST, SET, MAP} ==> Encode(BytesValue(s), t, subs, req) == Ok(s)
  {
  }

  /** The bytes are the characters of a literal text. */
  predicate Spells(bs: Bytes, text: string) {
    |bs| == |text| && forall i :: 0 <= i < |bs| ==> bs[i] as int == text[i] as int
  }

  predicate TrueText(s: Bytes) {
    || Spells(s, "1") || Spells(s, "t") || Spells(s, "T")
    || Spells(s, "TRUE") || Spells(s, "true") || Spells(s, "True")
  }

  predicate FalseText(s: Bytes) {
    || Spells(s, "0") || Spells(s, "f") || Spells(s, "F")
    || Spells(s, "FALSE") || Spells(s, "false") || Spells(s, "False")
  }

  lemma SpelledAs(s: Bytes, text: string, spelled: Bytes)
    requires |spelled| == |text| && forall i :: 0 <= i < |text| ==> spelled[i] as int == text[i] as int
    ensures Spells(s, text) <==> s == spelled
  {
  }

  lemma TrueTexts(s: Bytes)
    ensures s in TRUE_TEXTS <==> TrueText(s)
  {
    SpelledAs(s, "1", [49]);
    SpelledAs(s, "t", [116]);
    SpelledAs(s, "T", [84]);
    SpelledAs(s, "TRUE", [84, 82, 85, 69]);
    SpelledAs(s, "true", [116, 114, 117, 101]);
    SpelledAs(s, "True", [84, 114, 117, 101]);
    hide Spells;
  }

  lemma FalseTexts(s: Bytes)
    ensures s in FALSE_TEXTS <==> FalseText(s)
  {
    SpelledAs(s, "0", [48]);
    SpelledAs(s, "f", [102]);
    SpelledAs(s, "F", [70]);
    SpelledAs(s, "FALSE", [70, 65, 76, 83, 69]);
    SpelledAs(s, "false", [102, 97, 108, 115, 101]);
    SpelledAs(s, "False", [70, 97, 108, 115, 101]);
    hide Spells;
  }

  lemma BoolTexts(s: Bytes)
    ensures s in TRUE_TEXTS <==> TrueText(s)
    ensures s in FALSE_TEXTS <==> FalseText(s)
    ensures !(TrueText(s) && FalseText(s))
  {
    TrueTexts(s);
    FalseTexts(s);
    hide TrueText, FalseText;
    assert !(s in TRUE_TEXTS && s in FALSE_TEXTS);
  }

  /** A bool is sent as 1 or 0, and a text under BOOL is sent if and only if it is one of twelve, as the bool
      it names. */
  lemma TextUnderBool(s: Bytes, subs: seq<PropertyType>, req: Request)
    ensures Encode(BoolValue(true), BOOL, subs, req).Ok? && Encode(BoolValue(false), BOOL, subs, req).Ok?
    ensures Spells(Encode(BoolValue(true), BOOL, subs, req).value, "1")
    ensures Spells(Encode(BoolValue(false), BOOL, subs, req).value, "0")
    ensures TrueText(s) ==> Encode(Str(s), BOOL, subs, req) == Encode(BoolValue(true), BOOL, subs, req)
    ensures FalseText(s) ==> Encode(Str(s), BOOL, subs, req) == Encode(BoolValue(false), BOOL, subs, req)
    ensures !TrueText(s) && !FalseText(s) ==> Encode(Str(s), BOOL, subs, req) == Err(NotABool)
  {
    BoolTexts(s);
    hide TrueText, FalseText;
  }

  /** What the server sends for a bool: the same twelve texts, nothing, or the null pattern. */
  lemma BoolDecodes(bs: Bytes, subs: seq<PropertyType>)
    ensures Decode(bs, BOOL, subs) ==
      if bs == [2] || bs == [] then Ok(Nil)
      else if TrueText(bs) then Ok(BoolValue(true))
      else if FalseText(bs) then Ok(BoolValue(false))
      else Err(NotABool)
  {
    BoolTexts(bs);
    assert TrueText(bs) || FalseText(bs) ==> bs != [2] && bs != [];
    hide TrueText, FalseText;
  }

  // ---- decimals ----

  /** The number that ASCII digits spell. */
  function DigitsValue(bs: Bytes): int {
    if bs == [] then 0 else 10 * DigitsValue(bs[..|bs| - 1]) + (bs[|bs| - 1] as int - 48)
  }

  predicate Digits(bs: Bytes) {
    bs != [] && (forall b :: b in bs ==> 48 <= b <= 57) && (bs[0] == 48 ==> |bs| == 1)
  }

  /** `bs` is the decimal text of `i`: digits without leading zeros, after a minus sign when it is negative. */
  predicate DecimalText(bs: Bytes, i: int) {
    if i < 0 then bs != [] && bs[0] == 45 && Digits(bs[1..]) && DigitsValue(bs[1..]) == -i
    else Digits(bs) && DigitsValue(bs) == i
  }

  /** `bs` spells `n` without leading zeros. */
  predicate SpellsNumber(bs: Bytes, n: nat) {
    && bs != [] && (forall b :: b in bs ==> 48 <= b <= 57) && DigitsValue(bs) == n
    && (n > 0 ==> bs[0] != 48) && (n == 0 ==> |bs| == 1)
  }

  lemma OneDigitMore(bs: Bytes, n: nat, d: nat)
    requires SpellsNumber(bs, n) && n > 0 && d < 10
    ensures SpellsNumber(bs + [48 + d], 10 * n + d)
  {
    assert (bs + [48 + d])[..|bs|] == bs;
  }

  lemma DigitByte(s: string, d: nat)
    requires d < 10
    ensures TextBytes(s + [Decimal.DigitChar(d)]) == TextBytes(s) + [48 + d]
  {
    Decimal.DigitInverts(d);
  }

  lemma {:induction false} DigitsOfItoa(n: nat)
    ensures SpellsNumber(TextBytes(Decimal.Itoa(n)), n)
  {
    if n < 10 {
      assert Decimal.Itoa(n) == [] + [Decimal.DigitChar(n)];
      hide Decimal.Itoa, Decimal.DigitChar;
      DigitByte([], n);
      assert TextBytes([]) + [48 + n] == [48 + n];
      assert [48 + n][..0] == [];
      assert DigitsValue([]) == 0;
    } else {
      assert Decimal.Itoa(n) == Decimal.Itoa(n / 10) + [Decimal.DigitChar(n % 10)];
      hide *;
      DigitsOfItoa(n / 10);
      DigitByte(Decimal.Itoa(n / 10), n % 10);
      OneDigitMore(TextBytes(Decimal.Itoa(n / 10)), n / 10, n % 10);
    }
  }

  lemma FormatIsDecimalText(i: int)
    ensures DecimalText(TextBytes(Decimal.Format(i)), i) && TextBytes(Decimal.Format(i)) != []
  {
    hide DigitsValue, Decimal.Itoa;
    DigitsOfItoa(if i < 0 then -i else i);
    if i < 0 {
      var digits := Decimal.Itoa(-i);
      assert TextBytes("-" + digits)[1..] == TextBytes(digits);
    }
  }

  function IntegerOf(v: GoValue): int
    requires Integer(v)
  {
    match v
    case Int32Value(i) => i
    case IntValue(i) => i
    case Int64Value(i) => i
    case Uint32Value(n) => n
    case Uint64Value(n) => n
  }

  /** An integer of any kind arrives under DECIMAL as its decimal text. */
  lemma IntegerUnderDecimal(v: GoValue, subs: seq<PropertyType>, req: Request)
    requires Integer(v)
    ensures var r := Encode(v, DECIMAL, subs, req);
      r.Ok? && DecimalText(r.value, IntegerOf(v)) && Decode(r.value, DECIMAL, subs) == Ok(Str(r.value))
  {
    var i := IntegerOf(v);
    assert Encode(v, DECIMAL, subs, req) == Ok(TextBytes(Decimal.Format(i))) by { hide TextBytes, Decimal.Format; }
    FormatIsDecimalText(i);
    hide Encode, TextBytes, Decimal.Format, DecimalText, IntegerOf;
    assert TextBytes(Decimal.Format(i)) != [];
  }

  // ---- times ----

  /** The word a DATETIME, or the seconds a TIMESTAMP, is sent as. */
  function Moment(v: GoValue, t: PropertyType, req: Request): Option<nat>
    requires t in {DATETIME, TIMESTAMP} && (v.Str? || v.Time? || v.Timestamp?)
  {
    if v.Str? then
      if t.DATETIME? then
        (match req.datetimeOfText(v.text) case None => None case Some(d) => Some(d))
      else
        (match req.secondsOfText(v.text) case None => None case Some(n) => Some(n))
    else if v.Time? then Some(if t.DATETIME? then v.datetime else req.secondsOfWord(v.datetime))
    else Some(if t.DATETIME? then req.wordOfSeconds(v.seconds) else v.seconds)
  }

  /** Texts and times under DATETIME and TIMESTAMP, each way: the moment they name is what arrives. */
  lemma MomentBecomes(v: GoValue, t: PropertyType, subs: seq<PropertyType>, req: Request)
    requires t in {DATETIME, TIMESTAMP} && (v.Str? || v.Time? || v.Timestamp?)
    ensures var m := Moment(v, t, req);
      && (m.None? ==> Encode(v, t, subs, req) == Err(NotATime))
      && (m.Some? ==>
            && Encode(v, t, subs, req).Ok?
            && var r := Decode(Encode(v, t, subs, req).value, t, subs);
               r.Ok? && if m.value == NullWord(t) then r.value == Nil else ReadsAs(r.value, t, m.value))
  {
    var m := Moment(v, t, req);
    assert Encode(v, t, subs, req)
        == match m
           case None => Err(NotATime)
           case Some(n) => Ok(BigEndian(n, Width(t))) by { hide BigEndian, NullBytes; }
    if m.Some? {
      WordSizes();
      hide Encode, Decode, BigEndian, ReadsAs;
      WordBecomes(Width(t), m.value, t, subs);
    }
  }

  // ---- points ----

  /** A point is sent as its text, a text as the text of the point it names. */
  lemma PointsAreSentAsText(p: GoPoint, s: Bytes, subs: seq<PropertyType>, req: Request)
    ensures Encode(PointValue(p), POINT, subs, req) == Ok(req.pointText(p))
    ensures Encode(Str(s), POINT, subs, req)
         == match req.pointOfText(s)
            case None => Err(NotAPoint)
            case Some(q) => Encode(PointValue(q), POINT, subs, req)
  {
  }

  /** The bits of a double, without the sign: an exponent of ones is an infinity, and beyond it NaN. */
  predicate NotFinite(bits: nat) {
    bits % 0x8000_0000_0000_0000 >= 0x7ff0_0000_0000_0000
  }

  predicate NotANumber(bits: nat) {
    bits % 0x8000_0000_0000_0000 > 0x7ff0_0000_0000_0000
  }

  lemma DoubleClasses(bits: Uint64)
    ensures IsNaN(bits) <==> NotANumber(bits)
    ensures IsNaN(bits) || IsInfinite(bits) <==> NotFinite(bits)
  {
    var high, low := bits / 0x10_0000_0000_0000, bits % 0x10_0000_0000_0000;
    assert bits == high * 0x10_0000_0000_0000 + low;
    assert high == high / 0x800 * 0x800 + high % 0x800;
    assert bits % 0x8000_0000_0000_0000 == high % 0x800 * 0x10_0000_0000_0000 + low;
  }

  /** Two doubles, latitude first, decode to a point of finite coordinates, to nil with a NaN, and to an
      error with an infinity; any other number of bytes is an error. */
  lemma PointDecodes(latitude: Uint64, longitude: Uint64, bs: Bytes, subs: seq<PropertyType>)
    ensures Decode(BigEndian(latitude, 8) + BigEndian(longitude, 8), POINT, subs) ==
      if NotANumber(latitude) || NotANumber(longitude) then Ok(Nil)
      else if NotFinite(latitude) || NotFinite(longitude) then Err(NotAPoint)
      else Ok(PointValue(Rounded(latitude, longitude)))
    ensures |bs| != 16 ==> Decode(bs, POINT, subs) == Err(NotAPoint)
  {
    PointIsRead(latitude, longitude);
    DoubleClasses(latitude);
    DoubleClasses(longitude);
    assert |bs| != 16 ==> DecodePoint(bs) == Err(NotAPoint);
    hide BigEndian, DecodePoint, IsNaN, IsInfinite, NotFinite, NotANumber;
    if IsNull(POINT, BigEndian(latitude, 8) + BigEndian(longitude, 8)) {
      NullPointIsNaN(latitude, longitude);
    }
  }

  lemma PointIsRead(latitude: Uint64, longitude: Uint64)
    ensures DecodePoint(BigEndian(latitude, 8) + BigEndian(longitude, 8)) ==
      if IsNaN(latitude) || IsNaN(longitude) then Ok(Nil)
      else if IsInfinite(latitude) || IsInfinite(longitude) then Err(NotAPoint)
      else Ok(PointValue(Rounded(latitude, longitude)))
  {
    hide BigEndian, FromBigEndian, IsNaN, IsInfinite;
    var both := BigEndian(latitude, 8) + BigEndian(longitude, 8);
    assert both[..8] == BigEndian(latitude, 8) && both[8..] == BigEndian(longitude, 8);
    WordRoundTrip64(latitude);
    WordRoundTrip64(longitude);
  }

  lemma NullPointIsNaN(latitude: Uint64, longitude: Uint64)
    requires IsNull(POINT, BigEndian(latitude, 8) + BigEndian(longitude, 8))
    ensures NotANumber(latitude)
  {
    var both := BigEndian(latitude, 8) + BigEndian(longitude, 8);
    var ones: Bytes := [0xff, 0xff, 0xff, 0xff, 0xff, 0xff, 0xff, 0xff];
    hide BigEndian, FromBigEndian, Word64, NotANumber;
    assert both == seq(16, i => 0xff);
    assert both[..8] == BigEndian(latitude, 8);
    assert both[..8] == ones;
    hide *;
    WordRoundTrip64(latitude);
    OnesAreNaN();
  }

  lemma OnesAreNaN()
    ensures NotANumber(Word64([0xff, 0xff, 0xff, 0xff, 0xff, 0xff, 0xff, 0xff]))
  {
    Pattern64(0xff, 0xff);
    hide Word64;
  }

  // ---- nil ----

  /** What nil is sent as under each type, byte by byte. */
  lemma NilBytes(t: PropertyType, subs: seq<PropertyType>, req: Request)
    ensures t.MAP? ==> Encode(Nil, t, subs, req) == Err(UnsupportedType)
    ensures t.INT32? ==> Encode(Nil, t, subs, req) == Ok([0x7f, 0xff, 0xff, 0xff])
    ensures t.INT64? ==> Encode(Nil, t, subs, req) == Ok([0x7f, 0xff, 0xff, 0xff, 0xff, 0xff, 0xff, 0xff])
    ensures t in {UINT32, FLOAT, TIMESTAMP} ==> Encode(Nil, t, subs, req) == Ok([0xff, 0xff, 0xff, 0xff])
    ensures t in {UINT64, DOUBLE, DATETIME} ==>
      Encode(Nil, t, subs, req) == Ok([0xff, 0xff, 0xff, 0xff, 0xff, 0xff, 0xff, 0xff])
    ensures t.POINT? ==>
      Encode(Nil, t, subs, req) == Ok([0xff, 0xff, 0xff, 0xff, 0xff, 0xff, 0xff, 0xff,
                                       0xff, 0xff, 0xff, 0xff, 0xff, 0xff, 0xff, 0xff])
    ensures t in {STRING, TEXT} ==> Encode(Nil, t, subs, req) == Ok([0])
    ensures t.BOOL? ==> Encode(Nil, t, subs, req) == Ok([2])
    ensures t.LIST? ==> Encode(Nil, t, subs, req) == Ok([16, 1])
    ensures t in {BLOB, DECIMAL, SET, UNSET, NULL_, ID, UUID, FROM, TO, FROM_UUID, TO_UUID, IGNORE} ==>
      Encode(Nil, t, subs, req) == Ok([])
  {
    NullListIsNull();
    hide Wire.Marshal;
    var ones: Bytes := [0xff, 0xff, 0xff, 0xff, 0xff, 0xff, 0xff, 0xff];
    assert ones + ones == [0xff, 0xff, 0xff, 0xff, 0xff, 0xff, 0xff, 0xff,
                           0xff, 0xff, 0xff, 0xff, 0xff, 0xff, 0xff, 0xff];
    assert NullBytes(POINT).value == ones + ones;
  }

  // ---- which values can be sent ----

  /** The condition on value and type under which a value can be sent. */
  predicate CanBeSent(v: GoValue, t: PropertyType, subs: seq<PropertyType>, req: Request)
    decreases v
  {
    if t.MAP? then false
    else if v.Nil? then true
    else if t in {LIST, SET} then
      && subs != []
      && match v
         case Slice(elems) => forall e :: e in elems ==> CanBeSent(e, subs[0], [], req)
         case Str(s) => s == []
         case BytesValue(s) => s == []
         case _ => false
    else
      match v
      case Str(s) =>
        if t.BOOL? then TrueText(s) || FalseText(s)
        else if t.DATETIME? then req.datetimeOfText(s).Some?
        else if t.TIMESTAMP? then req.secondsOfText(s).Some?
        else if t.POINT? then req.pointOfText(s).Some?
        else true
      case BytesValue(_) => t !in {BOOL, DECIMAL}
      case BoolValue(_) => t.BOOL?
      case Time(_) => t in {DATETIME, TIMESTAMP}
      case Timestamp(_) => t in {DATETIME, TIMESTAMP}
      case PointValue(_) => t.POINT?
      case Slice(_) => false
      case Other => false
      case _ => !t.BOOL?
  }

  lemma ScalarEncodesExactly(v: GoValue, t: PropertyType, subs: seq<PropertyType>, req: Request)
    requires t !in {LIST, SET}
    ensures Encode(v, t, subs, req).Ok? <==> CanBeSent(v, t, subs, req)
  {
    if v.Str? {
      TextEncodesExactly(v.text, t, subs, req);
      hide *;
    } else if Number(v) {
      NumberEncodesExactly(v, t, subs, req);
      hide *;
    } else {
      hide BigEndian, NullBytes;
    }
  }

  lemma NumberEncodesExactly(v: GoValue, t: PropertyType, subs: seq<PropertyType>, req: Request)
    requires Number(v) && t !in {LIST, SET}
    ensures Encode(v, t, subs, req).Ok? <==> CanBeSent(v, t, subs, req)
  {
    hide BigEndian, NullBytes, TextBytes, Decimal.Format;
  }

  lemma TextEncodesExactly(s: Bytes, t: PropertyType, subs: seq<PropertyType>, req: Request)
    requires t !in {LIST, SET}
    ensures Encode(Str(s), t, subs, req).Ok? <==> CanBeSent(Str(s), t, subs, req)
  {
    BoolTexts(s);
    hide TrueText, FalseText, BigEndian, NullBytes;
  }

  lemma BytesUnderCollections(s: Bytes, t: PropertyType, subs: seq<PropertyType>, req: Request)
    requires t in {LIST, SET}
    ensures Encode(Str(s), t, subs, req).Ok? <==> subs != [] && s == []
    ensures Encode(BytesValue(s), t, subs, req).Ok? <==> subs != [] && s == []
  {
    hide Wire.Marshal;
  }

  /** A value of any Go kind under any type, lists and sets included, can be sent if and only if the condition
      holds. */
  lemma {:induction false} EncodesExactly(v: GoValue, t: PropertyType, subs: seq<PropertyType>, req: Request)
    ensures Encode(v, t, subs, req).Ok? <==> CanBeSent(v, t, subs, req)
    decreases v
  {
    if t !in {LIST, SET} {
      ScalarEncodesExactly(v, t, subs, req);
    } else if v.Slice? && subs != [] {
      EncodeSlice(v.elems, t, subs, req);
      ElemsEncodable(v.elems, subs[0], req);
      forall e | e in v.elems ensures Encode(e, subs[0], [], req).Ok? <==> CanBeSent(e, subs[0], [], req) {
        EncodesExactly(e, subs[0], [], req);
      }
    } else if v.Str? {
      BytesUnderCollections(v.text, t, subs, req);
    } else if v.BytesValue? {
      BytesUnderCollections(v.bytes, t, subs, req);
    }
  }

  /** Which error a value that is no slice gets when it cannot be sent. */
  lemma RefusalExactly(v: GoValue, t: PropertyType, subs: seq<PropertyType>, req: Request)
    requires !v.Slice? && !CanBeSent(v, t, subs, req)
    ensures Encode(v, t, subs, req) == Err(
      if t.MAP? then UnsupportedType
      else if t in {LIST, SET} then
        if subs == [] then NoSubTypes
        else if !v.Str? && !v.BytesValue? then Panic
        else if subs[0] in {LIST, SET} then NoSubTypes
        else if subs[0].MAP? then UnsupportedType
        else UnsupportedValue
      else if v.Str? then if t.BOOL? then NotABool else if t.POINT? then NotAPoint else NotATime
      else UnsupportedValue)
  {
    if v.Str? {
      BoolTexts(v.text);
      hide TrueText, FalseText;
    }
    hide BigEndian, NullBytes, TextBytes, Decimal.Format, Wire.Marshal;
  }

  /** A slice is refused when there is no element type, or with the error of the first element that is. */
  lemma SliceRefusal(elems: seq<GoValue>, t: PropertyType, subs: seq<PropertyType>, req: Request, i: nat, e: CodecError)
    requires t in {LIST, SET}
    ensures subs == [] ==> Encode(Slice(elems), t, subs, req) == Err(NoSubTypes)
    ensures subs != [] && i < |elems| && Encode(elems[i], subs[0], [], req) == Err(e)
            && (forall j :: 0 <= j < i ==> Encode(elems[j], subs[0], [], req).Ok?) ==>
      Encode(Slice(elems), t, subs, req) == Err(e)
  {
    if subs != [] && i < |elems| && Encode(elems[i], subs[0], [], req) == Err(e)
       && (forall j :: 0 <= j < i ==> Encode(elems[j], subs[0], [], req).Ok?)
    {
      EncodeSlice(elems, t, subs, req);
      ElemsEncodable(elems[..i], subs[0], req);
      hide Encode;
      assert elems[..i + 1][..i] == elems[..i];
      EncodeElemsFails(elems, i + 1, subs[0], req);
    }
  }

  /** What any bytes mean under LIST and SET: the null list only under LIST, no message an error, a null or empty
      message an empty slice, and otherwise the elements one by one, which need an element type. */
  lemma CollectionDecodes(bs: Bytes, t: PropertyType, subs: seq<PropertyType>, elems: seq<GoValue>)
    requires t in {LIST, SET}
    ensures Decode(bs, t, subs) == Ok(Nil) <==> t.LIST? && bs == [16, 1]
    ensures !(t.LIST? && bs == [16, 1]) ==> var m := Wire.Unmarshal(bs);
      && (m.Err? ==> Decode(bs, t, subs) == Err(NotAMessage))
      && (m.Ok? && (m.value.isNull || m.value.values == []) ==> Decode(bs, t, subs) == Ok(Slice([])))
      && (m.Ok? && !m.value.isNull && m.value.values != [] ==>
            && (subs == [] ==> Decode(bs, t, subs) == Err(Panic))
            && (subs != [] && |elems| == |m.value.values| ==>
                  (Decode(bs, t, subs) == Ok(Slice(elems))
                   <==> forall i :: 0 <= i < |elems| ==> Decode(m.value.values[i], subs[0], []) == Ok(elems[i]))))
  {
    NullListIsNull();
    var m := Wire.Unmarshal(bs);
    hide Wire.Unmarshal, Wire.Marshal, DecodeScalar;
    if m.Ok? && subs != [] && |elems| == |m.value.values| {
      ElemsDecodeExactly(m.value.values, subs[0], elems);
    }
    hide DecodeElems;
  }
}
