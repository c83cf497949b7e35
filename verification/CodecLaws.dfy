// What the value codec promises: which values come back, and as what.
module CodecLaws {
  import opened Base
  import opened Types
  import opened Codec

  /** The Go kind a property type is meant to hold. */
  predicate OwnKind(v: GoValue, t: PropertyType) {
    match t
    case INT32 => v.Int32Value?
    case INT64 => v.Int64Value?
    case UINT32 => v.Uint32Value?
    case UINT64 => v.Uint64Value?
    case FLOAT => v.Float32Value?
    case DOUBLE => v.Float64Value?
    case STRING | TEXT => v.Str?
    case BOOL => v.BoolValue?
    case DATETIME => v.Time?
    case TIMESTAMP => v.Timestamp?
    case DECIMAL => v.Str?
    case BLOB => v.BytesValue?
    case _ => false
  }

  /** The values that share their bytes with null. */
  predicate Collides(v: GoValue, t: PropertyType)
    requires OwnKind(v, t)
  {
    match t
    case INT32 => v.i32 == 0x7fff_ffff
    case INT64 => v.i64 == 0x7fff_ffff_ffff_ffff
    case UINT32 => v.u32 == 0xffff_ffff
    case UINT64 => v.u64 == 0xffff_ffff_ffff_ffff
    case FLOAT => v.bits32 == 0xffff_ffff
    case DOUBLE => v.bits64 == 0xffff_ffff_ffff_ffff
    case STRING | TEXT => v.text == [0]
    case DATETIME => v.datetime == 0xffff_ffff_ffff_ffff
    case TIMESTAMP => v.seconds == 0xffff_ffff
    case _ => false
  }

  predicate Scalar(v: GoValue, t: PropertyType) {
    OwnKind(v, t) || (v.Nil? && !t.MAP?)
  }

  predicate WellTyped(v: GoValue, t: PropertyType, subs: seq<PropertyType>) {
    || Scalar(v, t)
    || (t in {LIST, SET} && subs != [] && v.Slice? && forall e :: e in v.elems ==> Scalar(e, subs[0]))
  }

  /** Go strings and byte slices fit the length word of a protobuf record. */
  predicate ShortText(v: GoValue) {
    && (v.Str? ==> |v.text| < Wire.LENGTH_LIMIT)
    && (v.BytesValue? ==> |v.bytes| < Wire.LENGTH_LIMIT)
  }

  predicate InMemory(v: GoValue) {
    v.Slice? ==> forall e :: e in v.elems ==> ShortText(e)
  }

  /** What a well-typed scalar becomes after a trip through the server's bytes. */
  function NormalScalar(v: GoValue, t: PropertyType): GoValue
    requires Scalar(v, t)
  {
    if v.Nil? then
      if t.BLOB? then BytesValue([]) else if t.SET? then Slice([]) else Nil
    else if Collides(v, t) then Nil
    else if t.DATETIME? && v.datetime == 0 then Uint64Value(0)
    else if t.DECIMAL? && v.text == [] then Nil
    else v
  }

  function Normal(v: GoValue, t: PropertyType, subs: seq<PropertyType>): GoValue
    requires WellTyped(v, t, subs)
  {
    if Scalar(v, t) then NormalScalar(v, t) else Slice(NormalElems(v.elems, subs[0]))
  }

  function NormalElems(elems: seq<GoValue>, t: PropertyType): (r: seq<GoValue>)
    requires forall e :: e in elems ==> Scalar(e, t)
    ensures |r| == |elems|
    ensures forall i :: 0 <= i < |elems| ==> r[i] == NormalScalar(elems[i], t)
  {
    seq(|elems|, i requires 0 <= i < |elems| => NormalScalar(elems[i], t))
  }

  // ---- scalars ----

  lemma WordRoundTrip32(n: Uint32)
    ensures Word32(BigEndian(n, 4)) == n && ReadWord32(BigEndian(n, 4)) == n
  {
    WordSizes();
    FromBigEndianInverts(n, 4);
    assert BigEndian(n, 4)[..4] == BigEndian(n, 4);
  }

  lemma WordRoundTrip64(n: Uint64)
    ensures Word64(BigEndian(n, 8)) == n && ReadWord64(BigEndian(n, 8)) == n
  {
    WordSizes();
    FromBigEndianInverts(n, 8);
    assert BigEndian(n, 8)[..8] == BigEndian(n, 8);
  }

  lemma Pattern32(a: Byte, b: Byte, c: Byte, d: Byte)
    ensures Word32([a, b, c, d]) == ((a * 256 + b) * 256 + c) * 256 + d
  {
    assert [a, b, c, d][..3] == [a, b, c] && [a, b, c][..2] == [a, b] && [a, b][..1] == [a];
    assert FromBigEndian([a]) == a;
    assert FromBigEndian([a, b]) == a * 256 + b;
    assert FromBigEndian([a, b, c]) == (a * 256 + b) * 256 + c;
  }

  lemma FromBigEndianSnoc(bs: Bytes, b: Byte)
    ensures FromBigEndian(bs + [b]) == 256 * FromBigEndian(bs) + b
  {
    assert (bs + [b])[..|bs|] == bs;
  }

  lemma Pattern64(a: Byte, r: Byte)
    ensures Word64([a, r, r, r, r, r, r, r]) == a * 0x100_0000_0000_0000 + r * 0x1_0101_0101_0101
  {
    Pattern32(a, r, r, r);
    FromBigEndianSnoc([a, r, r, r], r);
    FromBigEndianSnoc([a, r, r, r, r], r);
    FromBigEndianSnoc([a, r, r, r, r, r], r);
    FromBigEndianSnoc([a, r, r, r, r, r, r], r);
    assert [a, r, r, r] + [r] == [a, r, r, r, r];
    assert [a, r, r, r, r] + [r] == [a, r, r, r, r, r];
    assert [a, r, r, r, r, r] + [r] == [a, r, r, r, r, r, r];
    assert [a, r, r, r, r, r, r] + [r] == [a, r, r, r, r, r, r, r];
  }

  /** A word is encoded as a given pattern exactly when it is the pattern's number. */
  lemma EncodesPattern(n: nat, bs: Bytes)
    requires n < Pow256(|bs|)
    ensures BigEndian(n, |bs|) == bs <==> n == FromBigEndian(bs)
  {
    BigEndianInverts(bs);
    FromBigEndianInverts(n, |bs|);
  }

  predicate WordType(t: PropertyType) {
    t in {INT32, UINT32, FLOAT, TIMESTAMP, INT64, UINT64, DOUBLE, DATETIME}
  }

  function Width(t: PropertyType): nat {
    if t in {INT32, UINT32, FLOAT, TIMESTAMP} then 4 else 8
  }

  /** The unsigned word a value of a word type is sent as. */
  function WordOf(v: GoValue, t: PropertyType): (n: nat)
    requires WordType(t) && OwnKind(v, t)
    ensures n < Pow256(Width(t))
  {
    WordSizes();
    match v
    case Int32Value(i) => ToUint32(i)
    case Uint32Value(n) => n
    case Float32Value(n) => n
    case Int64Value(i) => ToUint64(i)
    case Uint64Value(n) => n
    case Float64Value(n) => n
    case Time(n) => n
    case Timestamp(n) => n
  }

  function NullWord(t: PropertyType): nat
    requires WordType(t)
  {
    if t.INT32? then 0x7fff_ffff
    else if Width(t) == 4 then 0xffff_ffff
    else if t.INT64? then 0x7fff_ffff_ffff_ffff
    else 0xffff_ffff_ffff_ffff
  }

  lemma NullPatternIsNullWord(t: PropertyType)
    requires WordType(t)
    ensures NullBytes(t).Some? && |NullBytes(t).value| == Width(t)
    ensures FromBigEndian(NullBytes(t).value) == NullWord(t)
  {
    Pattern32(0x7f, 0xff, 0xff, 0xff); Pattern32(0xff, 0xff, 0xff, 0xff);
    Pattern64(0x7f, 0xff); Pattern64(0xff, 0xff);
  }

  lemma WordEncoding(v: GoValue, t: PropertyType, subs: seq<PropertyType>, req: Request)
    requires WordType(t) && OwnKind(v, t)
    ensures Encode(v, t, subs, req) == Ok(BigEndian(WordOf(v, t), Width(t)))
  {
    hide BigEndian, NullBytes, ToUint32, ToUint64;
  }

  lemma NullWordExactly(v: GoValue, t: PropertyType)
    requires WordType(t) && OwnKind(v, t)
    ensures Collides(v, t) <==> WordOf(v, t) == NullWord(t)
  {
  }

  lemma TextNullExactly(v: GoValue, t: PropertyType, subs: seq<PropertyType>, req: Request)
    requires OwnKind(v, t) && !WordType(t)
    ensures Encode(v, t, subs, req).Ok?
    ensures IsNull(t, Encode(v, t, subs, req).value) <==> Collides(v, t)
  {
    hide BigEndian;
  }

  /** The bytes of a scalar are its type's null pattern exactly for the colliding values. */
  lemma NullExactly(v: GoValue, t: PropertyType, subs: seq<PropertyType>, req: Request)
    requires OwnKind(v, t)
    ensures Encode(v, t, subs, req).Ok?
    ensures IsNull(t, Encode(v, t, subs, req).value) <==> Collides(v, t)
  {
    if WordType(t) {
      hide OwnKind, Collides, Encode, WordOf, NullWord, NullBytes, BigEndian, FromBigEndian;
      WordEncoding(v, t, subs, req);
      NullWordExactly(v, t);
      NullPatternIsNullWord(t);
      EncodesPattern(WordOf(v, t), NullBytes(t).value);
    } else {
      hide OwnKind, Collides, Encode;
      TextNullExactly(v, t, subs, req);
    }
  }

  /** A point is sent as text, which is never the null pattern of its type. */
  lemma PointIsNeverNull(p: GoPoint, subs: seq<PropertyType>, req: Request)
    ensures Encode(PointValue(p), POINT, subs, req).Ok?
    ensures !IsNull(POINT, Encode(PointValue(p), POINT, subs, req).value)
  {
    var text := req.pointText(p);
    assert [80] <= text && text[0] == 80;
    assert NullBytes(POINT).value[0] == 0xff;
  }

  lemma NullListIsNull()
    ensures NullBytes(LIST) == Some([Wire.IS_NULL_TAG, 1])
    ensures Wire.Unmarshal([Wire.IS_NULL_TAG, 1]) == Ok(Wire.ListData([], true))
    ensures Wire.Unmarshal([]) == Ok(Wire.ListData([], false))
  {
    assert Wire.Marshal(Wire.ListData([], true)) == [Wire.IS_NULL_TAG, 1];
    Wire.UnmarshalInverts(Wire.ListData([], true));
  }

  lemma NoElems(t: PropertyType)
    ensures DecodeElems([], t) == Ok([])
  {
  }

  lemma NilRoundTrip(t: PropertyType, subs: seq<PropertyType>)
    requires !t.MAP?
    ensures Decode(BytesOfNil(t), t, subs) == Ok(NormalScalar(Nil, t))
  {
    NullListIsNull();
    hide Wire.Marshal, Wire.Unmarshal;
    if NullBytes(t).Some? {
      hide NullBytes, DecodeScalar;
    } else {
      assert BytesOfNil(t) == [];
      NoElems(if subs == [] then t else subs[0]);
      hide DecodeElems;
    }
  }

  lemma WordReadBack(v: GoValue, t: PropertyType)
    requires WordType(t) && OwnKind(v, t)
    ensures var bs := BigEndian(WordOf(v, t), Width(t));
      && bs != []
      && (Width(t) == 4 ==> ReadWord32(bs) == WordOf(v, t))
      && (Width(t) == 8 ==> ReadWord64(bs) == WordOf(v, t))
  {
    WordSizes();
    if Width(t) == 4 {
      WordRoundTrip32(WordOf(v, t));
    } else {
      WordRoundTrip64(WordOf(v, t));
    }
  }

  /** Reading a word in its type's own form, with its sign. */
  lemma WordDecodes(bs: Bytes, v: GoValue, t: PropertyType)
    requires WordType(t) && OwnKind(v, t) && !Collides(v, t) && bs != []
    requires Width(t) == 4 ==> ReadWord32(bs) == WordOf(v, t)
    requires Width(t) == 8 ==> ReadWord64(bs) == WordOf(v, t)
    ensures DecodeScalar(bs, t) == Ok(NormalScalar(v, t))
  {
  }

  lemma WordScalarRoundTrip(v: GoValue, t: PropertyType, subs: seq<PropertyType>, req: Request)
    requires WordType(t) && OwnKind(v, t)
    ensures Encode(v, t, subs, req).Ok?
    ensures Decode(Encode(v, t, subs, req).value, t, subs) == Ok(NormalScalar(v, t))
  {
    hide WordOf, DecodeScalar, Encode, IsNull, Collides;
    NullExactly(v, t, subs, req);
    if !Collides(v, t) {
      WordEncoding(v, t, subs, req);
      WordReadBack(v, t);
      WordDecodes(Encode(v, t, subs, req).value, v, t);
    }
  }

  lemma ScalarRoundTrip(v: GoValue, t: PropertyType, subs: seq<PropertyType>, req: Request)
    requires Scalar(v, t)
    ensures Encode(v, t, subs, req).Ok?
    ensures Decode(Encode(v, t, subs, req).value, t, subs) == Ok(NormalScalar(v, t))
  {
    if v.Nil? {
      NilRoundTrip(t, subs);
    } else {
      NullExactly(v, t, subs, req);
      if WordType(t) {
        WordScalarRoundTrip(v, t, subs, req);
      }
    }
  }

  // ---- lists and sets ----

  lemma NullBytesFit(t: PropertyType)
    ensures |BytesOfNil(t)| <= 16
  {
    NullListIsNull();
  }

  lemma PlainFits(v: GoValue)
    requires ShortText(v) && EncodePlain(v).Ok?
    ensures |EncodePlain(v).value| < Wire.LENGTH_LIMIT
  {
  }

  /** Encoded elements stay short enough for the length word. */
  lemma ElementFits(v: GoValue, t: PropertyType, req: Request)
    requires Encode(v, t, [], req).Ok? && ShortText(v)
    ensures |Encode(v, t, [], req).value| < Wire.LENGTH_LIMIT
  {
    if v.Nil? {
      NullBytesFit(t);
    } else if t.LIST? || t.SET? {
      assert false;
    } else {
      assert Encode(v, t, [], req) == EncodeScalar(v, t, req);
      hide Encode, EncodePlain, EncodeDecimal;
      if EncodePlain(v).Ok? {
        PlainFits(v);
      }
      if t.DECIMAL? {
        DecimalFits(v, req);
      } else if t.DATETIME? || t.TIMESTAMP? {
        TimeFits(v, t, req);
      }
    }
  }

  lemma TimeFits(v: GoValue, t: PropertyType, req: Request)
    requires t.DATETIME? || t.TIMESTAMP?
    requires ShortText(v) && EncodeScalar(v, t, req).Ok?
    ensures |EncodeScalar(v, t, req).value| < Wire.LENGTH_LIMIT
  {
    hide BigEndian;
  }

  lemma DecimalFits(v: GoValue, req: Request)
    requires ShortText(v) && EncodeDecimal(v, req).Ok?
    ensures |EncodeDecimal(v, req).value| < Wire.LENGTH_LIMIT
  {
    match v
    case Int32Value(i) => Decimal.FormatShort(i);
    case IntValue(i) => Decimal.FormatShort(i);
    case Int64Value(i) => Decimal.FormatShort(i);
    case Uint32Value(n) => Decimal.FormatShort(n);
    case Uint64Value(n) => Decimal.FormatShort(n);
    case _ =>
  }

  /** Element by element, a collection decodes to what its encoded elements decode to. */
  lemma {:induction false} ElemsEncoded(elems: seq<GoValue>, t: PropertyType, req: Request)
    requires EncodeElems(elems, t, req).Ok?
    ensures var values := EncodeElems(elems, t, req).value;
      forall i :: 0 <= i < |elems| ==> Encode(elems[i], t, [], req) == Ok(values[i])
  {
    if elems != [] {
      ElemsEncoded(elems[..|elems| - 1], t, req);
    }
  }

  lemma {:induction false} ElemsEncodable(elems: seq<GoValue>, t: PropertyType, req: Request)
    ensures EncodeElems(elems, t, req).Ok? <==> forall e :: e in elems ==> Encode(e, t, [], req).Ok?
  {
    if elems != [] {
      var front, last := elems[..|elems| - 1], elems[|elems| - 1];
      assert elems == front + [last];
      ElemsEncodable(front, t, req);
      if EncodeElems(front, t, req).Err? {
        var e :| e in front && Encode(e, t, [], req).Err?;
        assert e in elems;
      } else {
        assert last in elems;
        assert forall e :: e in elems ==> e in front || e == last;
      }
    }
  }

  lemma {:induction false} ElemsDecoded(values: seq<Bytes>, t: PropertyType)
    requires DecodeElems(values, t).Ok?
    ensures var elems := DecodeElems(values, t).value;
      forall i :: 0 <= i < |values| ==> Decode(values[i], t, []) == Ok(elems[i])
  {
    if values != [] {
      ElemsDecoded(values[..|values| - 1], t);
    }
  }

  lemma {:induction false} ElemsDecodable(values: seq<Bytes>, t: PropertyType)
    requires forall i :: 0 <= i < |values| ==> Decode(values[i], t, []).Ok?
    ensures DecodeElems(values, t).Ok?
  {
    if values != [] {
      ElemsDecodable(values[..|values| - 1], t);
    }
  }

  lemma ElemsDecodeExactly(values: seq<Bytes>, t: PropertyType, elems: seq<GoValue>)
    requires |values| == |elems|
    ensures DecodeElems(values, t) == Ok(elems)
       <==> forall i :: 0 <= i < |values| ==> Decode(values[i], t, []) == Ok(elems[i])
  {
    if DecodeElems(values, t).Ok? {
      ElemsDecoded(values, t);
    }
    if forall i :: 0 <= i < |values| ==> Decode(values[i], t, []) == Ok(elems[i]) {
      ElemsDecodable(values, t);
      assert DecodeElems(values, t).value == elems;
    }
  }

  /** Reading the message of a collection reads its values one by one. */
  lemma DecodeMessage(values: seq<Bytes>, t: PropertyType, subs: seq<PropertyType>)
    requires t in {LIST, SET} && subs != []
    requires forall x :: x in values ==> |x| < Wire.LENGTH_LIMIT
    ensures var bs := Wire.Marshal(Wire.ListData(values, false));
      && !IsNull(t, bs)
      && Decode(bs, t, subs) == match DecodeElems(values, subs[0])
                                case Err(e) => Err(e)
                                case Ok(elems) => Ok(Slice(elems))
  {
    Wire.UnmarshalInverts(Wire.ListData(values, false));
    NullListIsNull();
    NoElems(subs[0]);
    hide Wire.Marshal, Wire.Unmarshal, DecodeElems, DecodeScalar;
    assert Wire.Marshal(Wire.ListData(values, false)) != [Wire.IS_NULL_TAG, 1];
  }

  lemma EncodedElemsFit(elems: seq<GoValue>, t: PropertyType, req: Request)
    requires EncodeElems(elems, t, req).Ok? && forall e :: e in elems ==> ShortText(e)
    ensures forall x :: x in EncodeElems(elems, t, req).value ==> |x| < Wire.LENGTH_LIMIT
  {
    ElemsEncoded(elems, t, req);
    var values := EncodeElems(elems, t, req).value;
    forall x | x in values ensures |x| < Wire.LENGTH_LIMIT {
      var i :| 0 <= i < |values| && values[i] == x;
      ElementFits(elems[i], t, req);
    }
  }

  lemma EncodeSlice(elems: seq<GoValue>, t: PropertyType, subs: seq<PropertyType>, req: Request)
    requires t in {LIST, SET} && subs != []
    ensures Encode(Slice(elems), t, subs, req)
         == match EncodeElems(elems, subs[0], req)
            case Err(e) => Err(e)
            case Ok(values) => Ok(Wire.Marshal(Wire.ListData(values, false)))
  {
  }

  /** A slice that encodes is read back as the elements' own readings. */
  lemma CollectionThroughBytes(v: GoValue, t: PropertyType, subs: seq<PropertyType>, req: Request, elems: seq<GoValue>)
    requires t in {LIST, SET} && subs != []
    requires v.Slice? && InMemory(v) && |elems| == |v.elems|
    requires EncodeElems(v.elems, subs[0], req).Ok?
    ensures Encode(v, t, subs, req).Ok?
    ensures !IsNull(t, Encode(v, t, subs, req).value)
    ensures var values := EncodeElems(v.elems, subs[0], req).value;
      (Decode(Encode(v, t, subs, req).value, t, subs) == Ok(Slice(elems))
       <==> forall i :: 0 <= i < |elems| ==> Decode(values[i], subs[0], []) == Ok(elems[i]))
  {
    hide Encode, Decode, EncodeElems, DecodeElems, IsNull, ShortText;
    var values := EncodeElems(v.elems, subs[0], req).value;
    EncodeSlice(v.elems, t, subs, req);
    EncodedElemsFit(v.elems, subs[0], req);
    DecodeMessage(values, t, subs);
    ElemsDecodeExactly(values, subs[0], elems);
  }

  /** Every well-typed value comes back as its normal form: itself, unless it collides with null. */
  lemma RoundTrip(v: GoValue, t: PropertyType, subs: seq<PropertyType>, req: Request)
    requires WellTyped(v, t, subs) && InMemory(v)
    ensures Encode(v, t, subs, req).Ok?
    ensures Decode(Encode(v, t, subs, req).value, t, subs) == Ok(Normal(v, t, subs))
  {
    if Scalar(v, t) {
      ScalarRoundTrip(v, t, subs, req);
    } else {
      var sub := subs[0];
      forall e | e in v.elems
        ensures Encode(e, sub, [], req).Ok?
        ensures Decode(Encode(e, sub, [], req).value, sub, []) == Ok(NormalScalar(e, sub))
      {
        ScalarRoundTrip(e, sub, [], req);
      }
      ElemsEncodable(v.elems, sub, req);
      ElemsEncoded(v.elems, sub, req);
      CollectionThroughBytes(v, t, subs, req, NormalElems(v.elems, sub));
    }
  }

  /** The pattern of a null list is never the encoding of a list that is there. */
  lemma OnlyNilIsTheNullList(v: GoValue, subs: seq<PropertyType>, req: Request)
    requires InMemory(v) && Encode(v, LIST, subs, req).Ok?
    ensures IsNull(LIST, Encode(v, LIST, subs, req).value) <==> v.Nil?
  {
    NullListIsNull();
    if v.Slice? {
      EncodeSlice(v.elems, LIST, subs, req);
      CollectionThroughBytes(v, LIST, subs, req, v.elems);
    }
  }

  // ---- exactly which values survive ----

  ghost predicate Survives(v: GoValue, t: PropertyType, subs: seq<PropertyType>, req: Request)
  {
    Encode(v, t, subs, req).Ok? && Decode(Encode(v, t, subs, req).value, t, subs) == Ok(v)
  }

  /** The condition a caller can check on the value alone. */
  predicate Restorable(v: GoValue, t: PropertyType, subs: seq<PropertyType>)
    decreases v
  {
    match v
    case Nil => !t.MAP? && !t.SET? && !t.BLOB?
    case Slice(elems) => t in {LIST, SET} && subs != [] && forall e :: e in elems ==> Restorable(e, subs[0], [])
    case Uint64Value(n) => (t.UINT64? && !Collides(v, t)) || (t.DATETIME? && n == 0)
    case Time(d) => t.DATETIME? && d != 0 && !Collides(v, t)
    case _ => OwnKind(v, t) && !Collides(v, t) && !(t.DECIMAL? && v.text == [])
  }

  /** What any bytes of a scalar type decode to is nil or of the type's own kind. */
  lemma DecodedKind(bs: Bytes, t: PropertyType, subs: seq<PropertyType>)
    requires Decode(bs, t, subs).Ok?
    ensures var r := Decode(bs, t, subs).value;
      || r.Nil? || OwnKind(r, t) || (t in {LIST, SET} && r.Slice?) || (t.DATETIME? && r == Uint64Value(0))
      || (t.POINT? && r.PointValue? && r.point.Rounded? && |bs| == 16)
  {
  }

  lemma OtherKindsAreLost(v: GoValue, t: PropertyType, subs: seq<PropertyType>, req: Request)
    requires !Scalar(v, t) && !v.Slice? && !(t.DATETIME? && v == Uint64Value(0))
    ensures !Survives(v, t, subs, req)
  {
    if Survives(v, t, subs, req) {
      DecodedKind(Encode(v, t, subs, req).value, t, subs);
    }
  }

  lemma ZeroWord()
    ensures BigEndian(0, 8) == [0, 0, 0, 0, 0, 0, 0, 0]
  {
    assert BigEndian(0, 4) == [0, 0, 0, 0];
  }

  lemma ZeroDatetimeSurvives(subs: seq<PropertyType>, req: Request)
    ensures Survives(Uint64Value(0), DATETIME, subs, req)
  {
    WordRoundTrip64(0);
    ZeroWord();
  }

  lemma SurvivesAsNormal(v: GoValue, t: PropertyType, subs: seq<PropertyType>, req: Request)
    requires Scalar(v, t)
    ensures Survives(v, t, subs, req) <==> NormalScalar(v, t) == v
  {
    hide Encode, Decode, Scalar, NormalScalar;
    ScalarRoundTrip(v, t, subs, req);
  }

  lemma RestorableScalars(v: GoValue, t: PropertyType, subs: seq<PropertyType>)
    requires !v.Slice?
    ensures Scalar(v, t) ==> (Restorable(v, t, subs) <==> NormalScalar(v, t) == v)
    ensures !Scalar(v, t) ==> (Restorable(v, t, subs) <==> t.DATETIME? && v == Uint64Value(0))
  {
  }

  lemma ScalarSurvivesExactly(v: GoValue, t: PropertyType, subs: seq<PropertyType>, req: Request)
    requires !v.Slice?
    ensures Survives(v, t, subs, req) <==> Restorable(v, t, subs)
  {
    hide *;
    RestorableScalars(v, t, subs);
    if Scalar(v, t) {
      SurvivesAsNormal(v, t, subs, req);
    } else if t.DATETIME? && v == Uint64Value(0) {
      ZeroDatetimeSurvives(subs, req);
    } else {
      OtherKindsAreLost(v, t, subs, req);
    }
  }

  lemma SliceSurvivesExactly(v: GoValue, t: PropertyType, subs: seq<PropertyType>, req: Request)
    requires v.Slice? && InMemory(v) && t in {LIST, SET} && subs != []
    ensures Survives(v, t, subs, req) <==> forall e :: e in v.elems ==> Survives(e, subs[0], [], req)
  {
    hide Encode, Decode, EncodeElems;
    var sub := subs[0];
    ElemsEncodable(v.elems, sub, req);
    EncodeSlice(v.elems, t, subs, req);
    if EncodeElems(v.elems, sub, req).Ok? {
      CollectionThroughBytes(v, t, subs, req, v.elems);
      ElemsEncoded(v.elems, sub, req);
      assert Survives(v, t, subs, req)
        <==> forall i :: 0 <= i < |v.elems| ==> Survives(v.elems[i], sub, [], req);
    }
  }

  lemma UnfitSliceIsLost(v: GoValue, t: PropertyType, subs: seq<PropertyType>, req: Request)
    requires v.Slice? && (t !in {LIST, SET} || subs == [])
    ensures !Survives(v, t, subs, req)
  {
  }

  /** A value of any Go kind comes back unchanged if and only if it is restorable. */
  lemma SurvivesExactly(v: GoValue, t: PropertyType, subs: seq<PropertyType>, req: Request)
    requires InMemory(v)
    ensures Survives(v, t, subs, req) <==> Restorable(v, t, subs)
  {
    hide Survives, OwnKind, Collides;
    if !v.Slice? {
      ScalarSurvivesExactly(v, t, subs, req);
    } else if t in {LIST, SET} && subs != [] {
      SliceSurvivesExactly(v, t, subs, req);
      forall e | e in v.elems
        ensures Survives(e, subs[0], [], req) <==> Restorable(e, subs[0], [])
      {
        if e.Slice? {
          UnfitSliceIsLost(e, subs[0], [], req);
        } else {
          ScalarSurvivesExactly(e, subs[0], [], req);
        }
      }
    } else {
      UnfitSliceIsLost(v, t, subs, req);
    }
  }

  /** A plain Go int is sent as four bytes: a 64-bit property reads none of it. */
  lemma PlainIntIsLost(i: Int64, req: Request)
    ensures Encode(IntValue(i), INT64, [], req).Ok?
    ensures Decode(Encode(IntValue(i), INT64, [], req).value, INT64, []) == Ok(Int64Value(0))
    ensures Decode(Encode(IntValue(i), UINT64, [], req).value, UINT64, []) == Ok(Uint64Value(0))
  {
  }
}
