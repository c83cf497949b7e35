// The protobuf wire form of ListData and SetData (rpc/ultipa.proto): repeated bytes values = 1,
// bool is_null = 2. Varints and length-delimited records follow the Protocol Buffers Encoding
// specification, sections "Base 128 Varints" and "Length-Delimited Records".
module Wire {
  import opened Base

  datatype ListData = ListData(values: seq<Bytes>, isNull: bool)

  datatype WireError = BadVarint | BadFieldNumber | BadWireType | Truncated

  const VALUES_TAG: Byte := 0x0A   // field 1, length-delimited
  const IS_NULL_TAG: Byte := 0x10  // field 2, varint

  function Varint(n: nat): Bytes {
    if n < 128 then [n] else [n % 128 + 128] + Varint(n / 128)
  }

  /** One above the largest value left for a varint after `i` of its ten bytes. */
  function VarintCap(i: nat): (cap: nat)
    requires i <= 9
    ensures cap >= 2
    decreases 9 - i
  {
    if i == 9 then 2 else 128 * VarintCap(i + 1)
  }

  const LENGTH_LIMIT := 0x1_0000_0000_0000_0000

  lemma VarintCapIsWordSize()
    ensures VarintCap(0) == LENGTH_LIMIT
  {
    assert VarintCap(7) == 128 * 128 * 2;
    assert VarintCap(5) == 128 * 128 * VarintCap(7);
    assert VarintCap(3) == 128 * 128 * VarintCap(5);
    assert VarintCap(1) == 128 * 128 * VarintCap(3);
  }

  /** Reads a varint after `i` bytes of it; overlong forms are accepted, an eleventh byte is not. */
  function ReadVarint(bs: Bytes, i: nat): (r: Option<(nat, Bytes)>)
    requires i <= 9
    ensures r.Some? ==> |r.value.1| < |bs|
    decreases 9 - i
  {
    if bs == [] then None
    else if i == 9 then if bs[0] < 2 then Some((bs[0], bs[1..])) else None
    else if bs[0] < 128 then Some((bs[0], bs[1..]))
    else
      match ReadVarint(bs[1..], i + 1)
      case None => None
      case Some((high, rest)) => Some((bs[0] - 128 + 128 * high, rest))
  }

  lemma {:induction false} ReadVarintInverts(n: nat, i: nat, rest: Bytes)
    requires i <= 9 && n < VarintCap(i)
    ensures ReadVarint(Varint(n) + rest, i) == Some((n, rest))
    decreases 9 - i
  {
    var bs := Varint(n) + rest;
    if n < 128 {
      assert bs[1..] == rest;
    } else {
      assert bs[1..] == Varint(n / 128) + rest;
      ReadVarintInverts(n / 128, i + 1, rest);
    }
  }

  function ValueField(v: Bytes): Bytes {
    [VALUES_TAG] + Varint(|v|) + v
  }

  function ValueFields(vs: seq<Bytes>): Bytes {
    if vs == [] then [] else ValueField(vs[0]) + ValueFields(vs[1..])
  }

  /** proto.Marshal: fields in number order, a false bool is not written. */
  function Marshal(d: ListData): Bytes {
    ValueFields(d.values) + if d.isNull then [IS_NULL_TAG, 1] else []
  }

  /** Drops the payload of a field this message does not know. */
  function SkipField(wireType: nat, bs: Bytes): (r: Result<Bytes, WireError>)
    ensures r.Ok? ==> |r.value| <= |bs|
  {
    if wireType == 0 then
      match ReadVarint(bs, 0)
      case None => Err(BadVarint)
      case Some((_, rest)) => Ok(rest)
    else if wireType == 1 then if |bs| < 8 then Err(Truncated) else Ok(bs[8..])
    else if wireType == 2 then
      match ReadVarint(bs, 0)
      case None => Err(BadVarint)
      case Some((n, rest)) => if n > |rest| then Err(Truncated) else Ok(rest[n..])
    else if wireType == 5 then if |bs| < 4 then Err(Truncated) else Ok(bs[4..])
    else Err(BadWireType)
  }

  const MAX_FIELD_NUMBER := 0x1FFF_FFFF

  /** proto.Unmarshal, continuing from the fields already read into `d`. */
  function UnmarshalFrom(bs: Bytes, d: ListData): Result<ListData, WireError>
    decreases |bs|
  {
    if bs == [] then Ok(d)
    else
      match ReadVarint(bs, 0)
      case None => Err(BadVarint)
      case Some((tag, body)) =>
        if tag / 8 < 1 || tag / 8 > MAX_FIELD_NUMBER then Err(BadFieldNumber)
        else if tag == VALUES_TAG then
          match ReadVarint(body, 0)
          case None => Err(BadVarint)
          case Some((n, rest)) =>
            if n > |rest| then Err(Truncated)
            else UnmarshalFrom(rest[n..], d.(values := d.values + [rest[..n]]))
        else if tag == IS_NULL_TAG then
          match ReadVarint(body, 0)
          case None => Err(BadVarint)
          case Some((b, rest)) => UnmarshalFrom(rest, d.(isNull := b != 0))
        else
          match SkipField(tag % 8, body)
          case Err(e) => Err(e)
          case Ok(rest) => UnmarshalFrom(rest, d)
  }

  function Unmarshal(bs: Bytes): Result<ListData, WireError> {
    UnmarshalFrom(bs, ListData([], false))
  }

  lemma ReadTag(tag: Byte, rest: Bytes)
    requires tag < 128
    ensures ReadVarint([tag] + rest, 0) == Some((tag as nat, rest))
  {
    assert ([tag] + rest)[1..] == rest;
  }

  lemma UnmarshalOneValue(v: Bytes, more: Bytes, d: ListData)
    requires |v| < LENGTH_LIMIT
    ensures UnmarshalFrom(ValueField(v) + more, d)
         == UnmarshalFrom(more, d.(values := d.values + [v]))
  {
    var body := Varint(|v|) + (v + more);
    assert ValueField(v) + more == [VALUES_TAG] + body;
    ReadTag(VALUES_TAG, body);
    VarintCapIsWordSize();
    ReadVarintInverts(|v|, 0, v + more);
    assert (v + more)[..|v|] == v && (v + more)[|v|..] == more;
  }

  lemma {:induction false} UnmarshalValues(vs: seq<Bytes>, tail: Bytes, d: ListData)
    requires forall v :: v in vs ==> |v| < LENGTH_LIMIT
    ensures UnmarshalFrom(ValueFields(vs) + tail, d)
         == UnmarshalFrom(tail, d.(values := d.values + vs))
    decreases |vs|
  {
    if vs == [] {
      assert ValueFields(vs) + tail == tail;
      assert d.values + vs == d.values;
    } else {
      var next := d.(values := d.values + [vs[0]]);
      assert next.values + vs[1..] == d.values + vs;
      assert ValueFields(vs) + tail == ValueField(vs[0]) + (ValueFields(vs[1..]) + tail);
      UnmarshalOneValue(vs[0], ValueFields(vs[1..]) + tail, d);
      UnmarshalValues(vs[1..], tail, next);
    }
  }

  lemma UnmarshalNullTag(d: ListData)
    ensures UnmarshalFrom([IS_NULL_TAG, 1], d) == Ok(d.(isNull := true))
  {
    assert [IS_NULL_TAG, 1] == [IS_NULL_TAG] + [1];
    ReadTag(IS_NULL_TAG, [1]);
    ReadTag(1, []);
    assert [1] + [] == [1 as Byte];
  }

  /** What Marshal writes, Unmarshal reads back. */
  lemma UnmarshalInverts(d: ListData)
    requires forall v :: v in d.values ==> |v| < LENGTH_LIMIT
    ensures Unmarshal(Marshal(d)) == Ok(d)
  {
    var tail := if d.isNull then [IS_NULL_TAG, 1] else [];
    UnmarshalValues(d.values, tail, ListData([], false));
    assert [] + d.values == d.values;
    if d.isNull {
      UnmarshalNullTag(ListData(d.values, false));
      hide UnmarshalFrom;
    }
  }

  /** The bytes of a message on the wire: key 10 (field 1, length-delimited) and the length before each value,
      key 16 (field 2, varint) and 1 for the flag. */
  lemma MessageBytes(v: Bytes, isNull: bool)
    requires |v| < 128
    ensures Marshal(ListData([], isNull)) == if isNull then [16, 1] else []
    ensures Marshal(ListData([v], isNull)) == [10, |v|] + v + if isNull then [16, 1] else []
  {
    assert ValueFields([v]) == ValueField(v) + ValueFields([]);
    assert ValueField(v) + [] == [10, |v|] + v;
  }

  /** The example of the encoding's specification: 300 is written as 172, 2. */
  lemma VarintExample()
    ensures Varint(300) == [172, 2]
  {
    assert Varint(2) == [2];
  }

  /** No varint is read as more than 64 bits. */
  lemma {:induction false} VarintIsBounded(bs: Bytes, i: nat)
    requires i <= 9
    ensures ReadVarint(bs, i).Some? ==> ReadVarint(bs, i).value.0 < VarintCap(i)
    decreases 9 - i
  {
    if bs != [] && i < 9 {
      VarintIsBounded(bs[1..], i + 1);
      assert VarintCap(i) == 128 * VarintCap(i + 1);
      if bs[0] >= 128 && ReadVarint(bs, i).Some? {
        var high := ReadVarint(bs[1..], i + 1).value.0;
        assert ReadVarint(bs, i).value.0 == bs[0] - 128 + 128 * high;
      }
    }
  }

  /** The payload of a field by its wire type: a varint, eight bytes, a length and that many bytes, or four bytes. */
  ghost predicate Payload(wireType: nat, bs: Bytes) {
    match wireType
    case 0 => exists n: nat :: n < LENGTH_LIMIT && bs == Varint(n)
    case 1 => |bs| == 8
    case 2 => exists v: Bytes :: |v| < LENGTH_LIMIT && bs == Varint(|v|) + v
    case 5 => |bs| == 4
    case _ => false
  }

  lemma PayloadIsSkipped(wireType: nat, bs: Bytes, rest: Bytes)
    requires Payload(wireType, bs)
    ensures SkipField(wireType, bs + rest) == Ok(rest)
  {
    VarintCapIsWordSize();
    if wireType == 0 {
      var n: nat :| n < LENGTH_LIMIT && bs == Varint(n);
      ReadVarintInverts(n, 0, rest);
    } else if wireType == 2 {
      var v: Bytes :| |v| < LENGTH_LIMIT && bs == Varint(|v|) + v;
      assert bs + rest == Varint(|v|) + (v + rest);
      ReadVarintInverts(|v|, 0, v + rest);
      assert (v + rest)[|v|..] == rest;
    } else {
      assert (bs + rest)[|bs|..] == rest;
    }
  }

  /** Fields of other numbers, and the message's own numbers with another wire type, are skipped whatever they
      hold; a key without a valid number is refused. */
  lemma UnknownFieldsAreSkipped(number: nat, wireType: nat, payload: Bytes, rest: Bytes, d: ListData)
    requires wireType < 8 && 8 * number + wireType < LENGTH_LIMIT
    ensures 1 <= number <= 0x1FFF_FFFF && (number, wireType) !in {(1, 2), (2, 0)} && Payload(wireType, payload) ==>
      UnmarshalFrom(Varint(8 * number + wireType) + (payload + rest), d) == UnmarshalFrom(rest, d)
    ensures number == 0 || number > 0x1FFF_FFFF ==>
      UnmarshalFrom(Varint(8 * number + wireType) + rest, d) == Err(BadFieldNumber)
    ensures 1 <= number <= 0x1FFF_FFFF && wireType in {3, 4, 6, 7} ==>
      UnmarshalFrom(Varint(8 * number + wireType) + rest, d) == Err(BadWireType)
  {
    var key := 8 * number + wireType;
    VarintCapIsWordSize();
    assert key / 8 == number && key % 8 == wireType;
    assert key == 10 <==> number == 1 && wireType == 2;
    assert key == 16 <==> number == 2 && wireType == 0;
    ReadVarintInverts(key, 0, payload + rest);
    ReadVarintInverts(key, 0, rest);
    VarintIsThere(key);
    hide Varint, ReadVarint;
    if Payload(wireType, payload) {
      PayloadIsSkipped(wireType, payload, rest);
    }
    hide SkipField, Payload;
  }

  lemma VarintIsThere(n: nat)
    ensures Varint(n) != []
  {
  }

  /** A payload that is cut short is refused. */
  lemma CutPayloadsAreRefused(bs: Bytes)
    ensures |bs| < 8 ==> SkipField(1, bs) == Err(Truncated)
    ensures |bs| < 4 ==> SkipField(5, bs) == Err(Truncated)
    ensures ReadVarint(bs, 0).None? ==> SkipField(0, bs) == SkipField(2, bs) == Err(BadVarint)
    ensures ReadVarint(bs, 0).Some? && ReadVarint(bs, 0).value.0 > |ReadVarint(bs, 0).value.1| ==>
      SkipField(2, bs) == Err(Truncated)
  {
  }
}
