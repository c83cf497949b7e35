// The value codec: sdk/utils/serilizer.go and sdk/utils/null.go.
// Every property type has a big-endian or text form; null is an in-band byte pattern.
module Codec {
  import opened Base
  import opened Types
  import Decimal
  import Wire

  /** A Point: given by the bits of its coordinates, or read back from their texts with six decimals. */
  datatype GoPoint = Given(latitude: Uint64, longitude: Uint64) | Rounded(latitude: Uint64, longitude: Uint64)

  /** A dynamically typed Go value. Floats are their bit patterns, strings their bytes. */
  datatype GoValue =
    | Nil
    | Int32Value(i32: Int32)
    | Int64Value(i64: Int64)
    | IntValue(goInt: Int64)
    | Uint32Value(u32: Uint32)
    | Uint64Value(u64: Uint64)
    | Float32Value(bits32: Uint32)
    | Float64Value(bits64: Uint64)
    | BoolValue(b: bool)
    | Str(text: Bytes)
    | BytesValue(bytes: Bytes)
    | Time(datetime: Uint64)      // the UltipaTime that NewDateTime makes of a word
    | Timestamp(seconds: Uint32)  // the UltipaTime that NewTimeStamp makes of seconds
    | PointValue(point: GoPoint)
    | Slice(elems: seq<GoValue>)
    | Other  // any other dynamic type, one reflection cannot measure

  datatype CodecError =
    | NoSubTypes | UnsupportedType | UnsupportedValue | NotABool | NotATime | NotAPoint | NotAMessage
    | Panic  // the Go code indexes or reflects out of bounds

  /** What the encoder gets from Go's libraries and the request's time zone: times and points read from
      text, the seconds of a datetime word and the word of seconds, and the texts of floats and points. */
  datatype Library = Library(
    datetimeOfText: Bytes -> Option<Uint64>,
    secondsOfText: Bytes -> Option<Uint32>,
    secondsOfWord: Uint64 -> Uint32,
    wordOfSeconds: Uint32 -> Uint64,
    pointOfText: Bytes -> Option<GoPoint>,
    pointText: GoPoint -> Bytes,
    float32Text: Uint32 -> Bytes,
    float64Text: Uint64 -> Bytes)

  /** Go strings fit the length word of a protobuf record. The text of a point starts with POINT, and with
      finite coordinates takes at least POINT(0.000000 0.000000). */
  ghost predicate GoTexts(library: Library) {
    && (forall p :: |library.pointText(p)| < Wire.LENGTH_LIMIT && (p.Rounded? ==> |library.pointText(p)| >= 24))
    && (forall p :: [80] <= library.pointText(p))
    && (forall n :: |library.float32Text(n)| < Wire.LENGTH_LIMIT)
    && (forall n :: |library.float64Text(n)| < Wire.LENGTH_LIMIT)
  }

  type Request = library: Library | GoTexts(library)
    witness Library(_ => None, _ => None, _ => 0, _ => 0, _ => None, _ => seq(24, i => 80), _ => [], _ => [])

  // ---- big-endian words ----

  function BigEndian(n: nat, width: nat): (bs: Bytes)
    ensures |bs| == width
  {
    if width == 0 then [] else BigEndian(n / 256, width - 1) + [n % 256]
  }

  function FromBigEndian(bs: Bytes): nat {
    if bs == [] then 0 else 256 * FromBigEndian(bs[..|bs| - 1]) + bs[|bs| - 1]
  }

  function Pow256(k: nat): (r: nat)
    ensures r > 0
  {
    if k == 0 then 1 else 256 * Pow256(k - 1)
  }

  lemma {:induction false} FromBigEndianInverts(n: nat, width: nat)
    requires n < Pow256(width)
    ensures FromBigEndian(BigEndian(n, width)) == n
  {
    if width > 0 {
      FromBigEndianInverts(n / 256, width - 1);
      var bs := BigEndian(n, width);
      assert bs[..|bs| - 1] == BigEndian(n / 256, width - 1);
    }
  }

  lemma {:induction false} BigEndianInverts(bs: Bytes)
    ensures BigEndian(FromBigEndian(bs), |bs|) == bs
    ensures FromBigEndian(bs) < Pow256(|bs|)
  {
    if bs != [] {
      BigEndianInverts(bs[..|bs| - 1]);
    }
  }

  lemma WordSizes()
    ensures Pow256(4) == 0x1_0000_0000
    ensures Pow256(8) == 0x1_0000_0000_0000_0000
  {
    assert Pow256(2) == 0x1_0000;
    assert Pow256(4) == 0x1_0000 * Pow256(2);
    assert Pow256(6) == 0x1_0000 * Pow256(4);
  }

  function Word32(bs: Bytes): Uint32
    requires |bs| == 4
  {
    BigEndianInverts(bs); WordSizes();
    FromBigEndian(bs)
  }

  function Word64(bs: Bytes): Uint64
    requires |bs| == 8
  {
    BigEndianInverts(bs); WordSizes();
    FromBigEndian(bs)
  }

  /** Go's conversions between signed and unsigned words of one width, and its truncation. */
  function ToUint32(i: int): Uint32 {
    i % 0x1_0000_0000
  }

  function ToUint64(i: int): Uint64 {
    i % 0x1_0000_0000_0000_0000
  }

  function Signed32(n: Uint32): Int32 {
    if n < 0x8000_0000 then n else n - 0x1_0000_0000
  }

  function Signed64(n: Uint64): Int64 {
    if n < 0x8000_0000_0000_0000 then n else n - 0x1_0000_0000_0000_0000
  }

  // ---- null patterns ----

  /** The null pattern of a type; a type the table misses has none. */
  function NullBytes(t: PropertyType): Option<Bytes>
  {
    match t
    case INT32 => Some([0x7f, 0xff, 0xff, 0xff])
    case INT64 => Some([0x7f, 0xff, 0xff, 0xff, 0xff, 0xff, 0xff, 0xff])
    case UINT32 | FLOAT | TIMESTAMP => Some([0xff, 0xff, 0xff, 0xff])
    case UINT64 | DOUBLE | DATETIME => Some([0xff, 0xff, 0xff, 0xff, 0xff, 0xff, 0xff, 0xff])
    case POINT => Some(seq(16, i => 0xff))
    case STRING | TEXT => Some([0])
    case LIST | MAP => Some(Wire.Marshal(Wire.ListData([], true)))
    case BOOL => Some([2])
    case _ => None
  }

  predicate IsNull(t: PropertyType, bs: Bytes)
  {
    t.NULL_? || NullBytes(t) == Some(bs)
  }

  /** What nil is sent as: a Go map lookup that misses gives no bytes. */
  function BytesOfNil(t: PropertyType): Bytes
  {
    match NullBytes(t)
    case Some(bs) => bs
    case None => []
  }

  // ---- encoding ----

  function EncodePlain(v: GoValue): Result<Bytes, CodecError> {
    match v
    case Int32Value(i) => Ok(BigEndian(ToUint32(i), 4))
    case IntValue(i) => Ok(BigEndian(ToUint32(i), 4))
    case Int64Value(i) => Ok(BigEndian(ToUint64(i), 8))
    case Uint32Value(n) => Ok(BigEndian(n, 4))
    case Uint64Value(n) => Ok(BigEndian(n, 8))
    case Float32Value(n) => Ok(BigEndian(n, 4))
    case Float64Value(n) => Ok(BigEndian(n, 8))
    case Str(s) => Ok(s)
    case BytesValue(s) => Ok(s)
    case _ => Err(UnsupportedValue)
  }

  const TRUE_TEXTS: seq<Bytes> := [[49], [116], [84], [84, 82, 85, 69], [116, 114, 117, 101], [84, 114, 117, 101]]
  const FALSE_TEXTS: seq<Bytes> :=
    [[48], [102], [70], [70, 65, 76, 83, 69], [102, 97, 108, 115, 101], [70, 97, 108, 115, 101]]

  /** strconv.ParseBool: 1 t T TRUE true True, 0 f F FALSE false False. */
  function ParseBool(s: Bytes): Result<bool, CodecError> {
    if s in TRUE_TEXTS then Ok(true) else if s in FALSE_TEXTS then Ok(false) else Err(NotABool)
  }

  function BoolBytes(b: bool): Bytes {
    if b then [49] else [48]
  }

  /** The bytes of a text without characters beyond a byte. */
  function TextBytes(s: string): (bs: Bytes)
    ensures |bs| == |s|
  {
    seq(|s|, i requires 0 <= i < |s| => s[i] as int % 256)
  }

  /** serializeDecimal: numbers and strings as text. */
  function EncodeDecimal(v: GoValue, req: Request): Result<Bytes, CodecError> {
    match v
    case Int32Value(i) => Ok(TextBytes(Decimal.Format(i)))
    case IntValue(i) => Ok(TextBytes(Decimal.Format(i)))
    case Int64Value(i) => Ok(TextBytes(Decimal.Format(i)))
    case Uint32Value(n) => Ok(TextBytes(Decimal.Format(n)))
    case Uint64Value(n) => Ok(TextBytes(Decimal.Format(n)))
    case Float32Value(n) => Ok(req.float32Text(n))
    case Float64Value(n) => Ok(req.float64Text(n))
    case Str(s) => Ok(s)
    case _ => Err(UnsupportedValue)
  }

  function EncodePoint(v: GoValue, req: Request): Result<Bytes, CodecError> {
    match v
    case PointValue(p) => Ok(req.pointText(p))
    case Str(s) =>
      (match req.pointOfText(s)
       case None => Err(NotAPoint)
       case Some(p) => Ok(req.pointText(p)))
    case _ => EncodePlain(v)
  }

  function EncodeDatetime(v: GoValue, req: Request): Result<Bytes, CodecError> {
    match v
    case Time(d) => EncodePlain(Uint64Value(d))
    case Timestamp(n) => EncodePlain(Uint64Value(req.wordOfSeconds(n)))
    case Str(s) =>
      (match req.datetimeOfText(s)
       case None => Err(NotATime)
       case Some(d) => EncodePlain(Uint64Value(d)))
    case _ => EncodePlain(v)
  }

  function EncodeTimestamp(v: GoValue, req: Request): Result<Bytes, CodecError> {
    match v
    case Time(d) => EncodePlain(Uint32Value(req.secondsOfWord(d)))
    case Timestamp(n) => EncodePlain(Uint32Value(n))
    case Str(s) =>
      (match req.secondsOfText(s)
       case None => Err(NotATime)
       case Some(n) => EncodePlain(Uint32Value(n)))
    case _ => EncodePlain(v)
  }

  function EncodeBool(v: GoValue): Result<Bytes, CodecError> {
    match v
    case BoolValue(b) => Ok(BoolBytes(b))
    case Str(s) =>
      (match ParseBool(s)
       case Err(e) => Err(e)
       case Ok(b) => Ok(BoolBytes(b)))
    case _ => Err(UnsupportedValue)
  }

  /** The switch of ConvertInterfaceToBytesSafe for values that are neither nil nor collections. */
  function EncodeScalar(v: GoValue, t: PropertyType, req: Request): Result<Bytes, CodecError> {
    match t
    case POINT => EncodePoint(v, req)
    case DECIMAL => EncodeDecimal(v, req)
    case DATETIME => EncodeDatetime(v, req)
    case TIMESTAMP => EncodeTimestamp(v, req)
    case BOOL => EncodeBool(v)
    case _ => EncodePlain(v)
  }

  /** ConvertInterfaceToBytesSafe. */
  function Encode(v: GoValue, t: PropertyType, subs: seq<PropertyType>, req: Request): Result<Bytes, CodecError>
    decreases v, 1
  {
    if t.MAP? then Err(UnsupportedType)
    else if v.Nil? then Ok(BytesOfNil(t))
    else if t.LIST? || t.SET? then EncodeCollection(v, subs, req)
    else EncodeScalar(v, t, req)
  }

  /** SerializeListData and SerializeSetData on a value that is not nil. */
  function EncodeCollection(v: GoValue, subs: seq<PropertyType>, req: Request): Result<Bytes, CodecError>
    decreases v, 0
  {
    if subs == [] then Err(NoSubTypes)
    else
      match v
      case Slice(elems) =>
        (match EncodeElems(elems, subs[0], req)
         case Err(e) => Err(e)
         case Ok(values) => Ok(Wire.Marshal(Wire.ListData(values, false))))
      // Reflection sees a string as its bytes, and no property type takes a single byte.
      case Str(s) => EncodeByteElems(s, subs[0])
      case BytesValue(s) => EncodeByteElems(s, subs[0])
      case _ => Err(Panic)
  }

  function EncodeByteElems(s: Bytes, t: PropertyType): Result<Bytes, CodecError> {
    if s == [] then Ok(Wire.Marshal(Wire.ListData([], false)))
    else if t.LIST? || t.SET? then Err(NoSubTypes)
    else if t.MAP? then Err(UnsupportedType)
    else Err(UnsupportedValue)
  }

  function EncodeElems(elems: seq<GoValue>, t: PropertyType, req: Request): (r: Result<seq<Bytes>, CodecError>)
    ensures r.Ok? ==> |r.value| == |elems|
    decreases elems, 2
  {
    if elems == [] then Ok([])
    else
      match EncodeElems(elems[..|elems| - 1], t, req)
      case Err(e) => Err(e)
      case Ok(front) =>
        match Encode(elems[|elems| - 1], t, [], req)
        case Err(e) => Err(e)
        case Ok(last) => Ok(front + [last])
  }

  // ---- decoding ----

  /** binary.Read into a zero word: too few bytes leave the zero, bytes beyond the word are ignored. */
  function ReadWord32(bs: Bytes): Uint32 {
    if |bs| < 4 then 0 else Word32(bs[..4])
  }

  function ReadWord64(bs: Bytes): Uint64 {
    if |bs| < 8 then 0 else Word64(bs[..8])
  }

  /** The exponent bits of a double: all ones for infinities and, with a fraction, for NaN. */
  predicate IsNaN(bits: Uint64) {
    bits / 0x10_0000_0000_0000 % 0x800 == 0x7ff && bits % 0x10_0000_0000_0000 != 0
  }

  predicate IsInfinite(bits: Uint64) {
    bits / 0x10_0000_0000_0000 % 0x800 == 0x7ff && bits % 0x10_0000_0000_0000 == 0
  }

  /** AsPointString and PointFromStr: two doubles are written as text and read again; the pattern does not
      match an infinity. */
  function DecodePoint(bs: Bytes): Result<GoValue, CodecError> {
    if |bs| != 16 then Err(NotAPoint)
    else
      var latitude, longitude := Word64(bs[..8]), Word64(bs[8..]);
      if IsNaN(latitude) || IsNaN(longitude) then Ok(Nil)
      else if IsInfinite(latitude) || IsInfinite(longitude) then Err(NotAPoint)
      else Ok(PointValue(Rounded(latitude, longitude)))
  }

  /** The switch of ConvertBytesToInterface for types without elements. */
  function DecodeScalar(bs: Bytes, t: PropertyType): Result<GoValue, CodecError> {
    match t
    case STRING | TEXT => Ok(Str(bs))
    case INT32 => Ok(Int32Value(Signed32(ReadWord32(bs))))
    case INT64 => Ok(Int64Value(Signed64(ReadWord64(bs))))
    case UINT32 => Ok(Uint32Value(ReadWord32(bs)))
    case UINT64 => Ok(Uint64Value(ReadWord64(bs)))
    case FLOAT => Ok(Float32Value(ReadWord32(bs)))
    case DOUBLE => Ok(Float64Value(ReadWord64(bs)))
    case DATETIME =>
      if bs == [] then Ok(Nil)
      else if ReadWord64(bs) == 0 then Ok(Uint64Value(0))
      else Ok(Time(ReadWord64(bs)))
    case TIMESTAMP => if bs == [] then Ok(Nil) else Ok(Timestamp(ReadWord32(bs)))
    case BLOB => Ok(BytesValue(bs))
    case POINT => DecodePoint(bs)
    case DECIMAL => if bs == [] then Ok(Nil) else Ok(Str(bs))
    case BOOL =>
      if bs == [] then Ok(Nil)
      else
        (match ParseBool(bs)
         case Err(e) => Err(e)
         case Ok(b) => Ok(BoolValue(b)))
    case _ => Ok(Nil)
  }

  /** ConvertBytesToInterface. */
  function Decode(bs: Bytes, t: PropertyType, subs: seq<PropertyType>): Result<GoValue, CodecError>
    decreases |subs|, 1, 0
  {
    if IsNull(t, bs) then Ok(Nil)
    else if t.LIST? || t.SET? then
      match Wire.Unmarshal(bs)
      case Err(_) => Err(NotAMessage)
      case Ok(d) =>
        if d.isNull || d.values == [] then Ok(Slice([]))
        else if subs == [] then Err(Panic)
        else
          match DecodeElems(d.values, subs[0])
          case Err(e) => Err(e)
          case Ok(elems) => Ok(Slice(elems))
    else DecodeScalar(bs, t)
  }

  function DecodeElems(values: seq<Bytes>, t: PropertyType): (r: Result<seq<GoValue>, CodecError>)
    ensures r.Ok? ==> |r.value| == |values|
    decreases 0, 2, |values|
  {
    if values == [] then Ok([])
    else
      match DecodeElems(values[..|values| - 1], t)
      case Err(e) => Err(e)
      case Ok(front) =>
        match Decode(values[|values| - 1], t, [])
        case Err(e) => Err(e)
        case Ok(last) => Ok(front + [last])
  }

  // ---- the source's loops and buffers, tied to the functions above ----

  /** binary.BigEndian.PutUint32 and PutUint64: the low byte goes last, the buffer is filled in place. */
  method PutUint(buf: array<Byte>, n: nat)
    modifies buf
    ensures buf[..] == BigEndian(n, buf.Length)
  {
    var i, rest := buf.Length, n;
    while i > 0
      invariant 0 <= i <= buf.Length
      invariant BigEndian(rest, i) + buf[i..] == BigEndian(n, buf.Length)
    {
      i := i - 1;
      ghost var tail := buf[i + 1..];
      buf[i] := rest % 256;
      assert buf[i..] == [rest % 256] + tail;
      rest := rest / 256;
    }
  }

  method ConvertInterfaceToBytes(v: GoValue) returns (r: Result<Bytes, CodecError>)
    ensures r == EncodePlain(v)
  {
    match v
    case Int32Value(i) => var buf := new Byte[4]; PutUint(buf, ToUint32(i)); r := Ok(buf[..]);
    case IntValue(i) => var buf := new Byte[4]; PutUint(buf, ToUint32(i)); r := Ok(buf[..]);
    case Int64Value(i) => var buf := new Byte[8]; PutUint(buf, ToUint64(i)); r := Ok(buf[..]);
    case Uint32Value(n) => var buf := new Byte[4]; PutUint(buf, n); r := Ok(buf[..]);
    case Uint64Value(n) => var buf := new Byte[8]; PutUint(buf, n); r := Ok(buf[..]);
    case Float32Value(n) => var buf := new Byte[4]; PutUint(buf, n); r := Ok(buf[..]);
    case Float64Value(n) => var buf := new Byte[8]; PutUint(buf, n); r := Ok(buf[..]);
    case Str(s) => r := Ok(s);
    case BytesValue(s) => r := Ok(s);
    case _ => r := Err(UnsupportedValue);
  }

  method SerializeElems(elems: seq<GoValue>, t: PropertyType, req: Request)
    returns (r: Result<seq<Bytes>, CodecError>)
    ensures r == EncodeElems(elems, t, req)
  {
    hide Encode;
    var values: seq<Bytes> := [];
    var index := 0;
    while index < |elems|
      invariant 0 <= index <= |elems|
      invariant EncodeElems(elems[..index], t, req) == Ok(values)
    {
      assert elems[..index + 1][..index] == elems[..index];
      var bs := Encode(elems[index], t, [], req);
      if bs.Err? {
        EncodeElemsFails(elems, index + 1, t, req);
        return Err(bs.error);
      }
      values := values + [bs.value];
      index := index + 1;
    }
    assert elems[..index] == elems;
    r := Ok(values);
  }

  /** The first element that fails decides the error. */
  lemma {:induction false} EncodeElemsFails(elems: seq<GoValue>, n: nat, t: PropertyType, req: Request)
    requires n <= |elems| && EncodeElems(elems[..n], t, req).Err?
    ensures EncodeElems(elems, t, req) == EncodeElems(elems[..n], t, req)
    decreases |elems| - n
  {
    if n == |elems| {
      assert elems[..n] == elems;
    } else {
      assert elems[..n + 1][..n] == elems[..n];
      EncodeElemsFails(elems, n + 1, t, req);
    }
  }

  method DeserializeElems(values: seq<Bytes>, t: PropertyType) returns (r: Result<seq<GoValue>, CodecError>)
    ensures r == DecodeElems(values, t)
  {
    hide Decode;
    var list: seq<GoValue> := [];
    var index := 0;
    while index < |values|
      invariant 0 <= index <= |values|
      invariant DecodeElems(values[..index], t) == Ok(list)
    {
      assert values[..index + 1][..index] == values[..index];
      var element := Decode(values[index], t, []);
      if element.Err? {
        DecodeElemsFails(values, index + 1, t);
        return Err(element.error);
      }
      list := list + [element.value];
      index := index + 1;
    }
    assert values[..index] == values;
    r := Ok(list);
  }

  lemma {:induction false} DecodeElemsFails(values: seq<Bytes>, n: nat, t: PropertyType)
    requires n <= |values| && DecodeElems(values[..n], t).Err?
    ensures DecodeElems(values, t) == DecodeElems(values[..n], t)
    decreases |values| - n
  {
    if n == |values| {
      assert values[..n] == values;
    } else {
      assert values[..n + 1][..n] == values[..n];
      DecodeElemsFails(values, n + 1, t);
    }
  }
}
