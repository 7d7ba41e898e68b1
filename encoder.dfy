/** The writing side of the replay format, the inverse of readBinData: each
    field encoded by the rules the decoder reads it with. It states the
    round trip that the decoder completes. */
module Encoder {
  import opened Base
  import opened Unpack
  import opened Record
  import Uleb128

  /** Text whose every character is a single byte. */
  predicate Latin1Text(s: string)
  {
    forall i :: 0 <= i < |s| ==> s[i] as int < 256
  }

  /** One byte per character. */
  function Latin1(s: string): (bs: seq<byte>)
    requires Latin1Text(s)
    ensures |bs| == |s|
    ensures Chars(bs) == s
  {
    var bs := seq(|s|, i requires 0 <= i < |s| => s[i] as int as byte);
    assert forall i :: 0 <= i < |s| ==> Chars(bs)[i] == s[i];
    bs
  }

  /** The values a field of each type can carry on the wire. Float and Bytes
      fields can never be read back, so nothing is encodable for them. */
  predicate Encodable(v: Value, t: DataType)
  {
    match t
    case String => v.Text? && Latin1Text(v.s)
    case RawReplay => v.Raw? && |v.bytes| < Pow2(32)
    case Float | Bytes => false
    case _ => v.Int? && InRange(v.n, t)
  }

  /** The marker written before a non-empty string (0x0b in osu! replays). */
  const NonEmptyMarker: byte := 11

  /** A field on the wire: a string as its marker, ULEB128 length and bytes;
      a raw block as its 32-bit length and bytes; an integer packed. */
  function EncodeField(v: Value, t: DataType): (r: seq<byte>)
    requires Encodable(v, t)
  {
    match t
    case String =>
      if v.s == "" then [0] else [NonEmptyMarker] + Uleb128.Encode(|v.s|) + Latin1(v.s)
    case RawReplay => Pack(|v.bytes|, UInt32) + v.bytes
    case _ => Pack(v.n, t)
  }

  lemma StringRoundTrip(prefix: seq<byte>, v: Value, tail: seq<byte>)
    requires Encodable(v, String)
    ensures ReadField(prefix + EncodeField(v, String) + tail, |prefix|, String)
      == Success((v, |prefix| + |EncodeField(v, String)|))
  {
    if v.s == "" {
      StringMarker(prefix + EncodeField(v, String) + tail, |prefix|, []);
    } else {
      assert EncodeField(v, String) == [NonEmptyMarker] + Uleb128.Encode(|v.s|) + Latin1(v.s);
      NonEmptyString(prefix, v.s, tail);
    }
  }

  /** The marker, the ULEB128 length and the characters read back as the text. */
  lemma NonEmptyString(prefix: seq<byte>, s: string, tail: seq<byte>)
    requires Latin1Text(s) && s != ""
    ensures var field := [NonEmptyMarker] + Uleb128.Encode(|s|) + Latin1(s);
      var r := ReadField(prefix + field + tail, |prefix|, String);
      r.Success? && r.value.0 == Text(s) && r.value.1 == |prefix| + |field|
  {
    var len := Uleb128.Encode(|s|);
    var text := Latin1(s);
    var stream := prefix + ([NonEmptyMarker] + len + text) + tail;
    MarkedAt(prefix, len, text, tail);
    Uleb128.RoundTrip(|s|, text + tail);
    LengthThenText(stream, |prefix|, |len|, text);
  }

  /** A non-empty string whose length decodes to `|text|` in `k` bytes. */
  lemma LengthThenText(stream: seq<byte>, start: nat, k: nat, text: seq<byte>)
    requires start < |stream| && stream[start] != 0
    requires Uleb128.Decode(stream[start + 1..]) == Success(Uleb128.Varint(|text|, k))
    requires start + 1 + k + |text| <= |stream|
    requires stream[start + 1 + k..Min(start + 1 + k + |text|, |stream|)] == text
    ensures var r := ReadField(stream, start, String);
      r.Success? && r.value.0 == Text(Chars(text)) && r.value.1 == start + 1 + k + |text|
  {
    StringNonEmpty(stream, start);
  }

  /** Where the marker, the length and the text of an encoded string sit. */
  lemma MarkedAt(prefix: seq<byte>, len: seq<byte>, text: seq<byte>, tail: seq<byte>)
    ensures var stream := prefix + ([NonEmptyMarker] + len + text) + tail;
      var from := |prefix| + 1 + |len|;
      |stream| >= from + |text| &&
      stream[|prefix|] == NonEmptyMarker &&
      stream[|prefix| + 1..] == len + (text + tail) &&
      stream[from..Min(from + |text|, |stream|)] == text
  {
    var stream := prefix + ([NonEmptyMarker] + len + text) + tail;
    assert stream == prefix + [NonEmptyMarker] + len + text + tail;
  }

  lemma RawReplayRoundTrip(prefix: seq<byte>, v: Value, tail: seq<byte>)
    requires Encodable(v, RawReplay)
    ensures ReadField(prefix + EncodeField(v, RawReplay) + tail, |prefix|, RawReplay)
      == Success((v, |prefix| + |EncodeField(v, RawReplay)|))
  {
    assert EncodeField(v, RawReplay) == Pack(|v.bytes|, UInt32) + v.bytes;
    LengthPrefix(prefix, v.bytes, tail);
  }

  /** A 32-bit length followed by that many bytes reads back as those bytes. */
  lemma LengthPrefix(prefix: seq<byte>, bytes: seq<byte>, tail: seq<byte>)
    requires |bytes| < Pow2(32)
    ensures var r := ReadField(prefix + (Pack(|bytes|, UInt32) + bytes) + tail, |prefix|, RawReplay);
      r.Success? && r.value.0 == Raw(bytes) && r.value.1 == |prefix| + 4 + |bytes|
  {
    var len := Pack(|bytes|, UInt32);
    assert len == EncodeLE(|bytes|, 4);
    LittleEndianOfEncode(|bytes|, 4);
    PiecesAt(prefix, len, bytes, tail);
    LengthThenBytes(prefix + (len + bytes) + tail, |prefix|, bytes);
  }

  /** A raw block whose 32-bit length is `|bytes|` and whose bytes follow it. */
  lemma LengthThenBytes(stream: seq<byte>, start: nat, bytes: seq<byte>)
    requires start + 4 + |bytes| <= |stream|
    requires LittleEndian(stream[start..start + 4]) == |bytes|
    requires stream[start + 4..start + 4 + |bytes|] == bytes
    ensures var r := ReadField(stream, start, RawReplay);
      r.Success? && r.value.0 == Raw(bytes) && r.value.1 == start + 4 + |bytes|
  {
    RawReplayField(stream, start);
  }

  /** Where the two middle pieces of a concatenation sit. */
  lemma PiecesAt(prefix: seq<byte>, a: seq<byte>, b: seq<byte>, tail: seq<byte>)
    ensures var s := prefix + (a + b) + tail;
      |s| >= |prefix| + |a| + |b| &&
      s[|prefix|..|prefix| + |a|] == a &&
      s[|prefix| + |a|..|prefix| + |a| + |b|] == b &&
      Min(|prefix| + |a| + |b|, |s|) == |prefix| + |a| + |b|
  {
    var s := prefix + (a + b) + tail;
    assert s[|prefix|..|prefix| + |a| + |b|] == a + b;
  }

  /** A packed integer reads back as itself, wherever it sits. */
  lemma FixedRoundTrip(prefix: seq<byte>, n: int, t: DataType, tail: seq<byte>)
    requires FixedInteger(t) && InRange(n, t)
    ensures ReadField(prefix + Pack(n, t) + tail, |prefix|, t).Success?
    ensures ReadField(prefix + Pack(n, t) + tail, |prefix|, t).value == (Int(n), |prefix| + |Pack(n, t)|)
  {
    var packed := Pack(n, t);
    var stream := prefix + packed + tail;
    FixedAdvance(t);
    MiddleAt(prefix, packed, tail, Advance(t));
    UnpackPack(n, t);
    UnpackRead(stream, |prefix|, t);
  }

  /** An encodable value of a fixed-width type is an integer packed in its format. */
  lemma IntegerRoundTrip(prefix: seq<byte>, v: Value, t: DataType, tail: seq<byte>)
    requires t != String && t != RawReplay && Encodable(v, t)
    ensures ReadField(prefix + EncodeField(v, t) + tail, |prefix|, t)
      == Success((v, |prefix| + |EncodeField(v, t)|))
  {
    assert FixedInteger(t) && v == Int(v.n);
    var packed := Pack(v.n, t);
    assert EncodeField(v, t) == packed;
    FixedRoundTrip(prefix, v.n, t, tail);
    var r := ReadField(prefix + packed + tail, |prefix|, t);
    assert r == Success((v, |prefix| + |packed|));
  }

  /** The middle piece of a concatenation, sliced back out. */
  lemma MiddleAt(prefix: seq<byte>, x: seq<byte>, tail: seq<byte>, w: nat)
    requires w == |x|
    ensures Slice(prefix + x + tail, |prefix|, |prefix| + w) == x
  {
    assert (prefix + x + tail)[|prefix|..|prefix| + |x|] == x;
  }

  /** Reading an encoded field back, wherever it sits in the stream, gives the
      value and puts the cursor right after it. */
  lemma FieldRoundTrip(prefix: seq<byte>, v: Value, t: DataType, tail: seq<byte>)
    requires Encodable(v, t)
    ensures ReadField(prefix + EncodeField(v, t) + tail, |prefix|, t)
      == Success((v, |prefix| + |EncodeField(v, t)|))
  {
    match t
    case String => StringRoundTrip(prefix, v, tail);
    case RawReplay => RawReplayRoundTrip(prefix, v, tail);
    case _ => IntegerRoundTrip(prefix, v, t, tail);
  }

  /** One encodable value per field of the schema. */
  predicate EncodableRecord(schema: Schema, values: seq<Value>)
  {
    |values| == |schema| &&
    (schema != [] ==> Encodable(values[0], schema[0].kind) && EncodableRecord(schema[1..], values[1..]))
  }

  /** The fields encoded one after another, in schema order. */
  function EncodeRecord(schema: Schema, values: seq<Value>): (r: seq<byte>)
    requires EncodableRecord(schema, values)
  {
    if schema == [] then []
    else
      EncodeField(values[0], schema[0].kind) + EncodeRecord(schema[1..], values[1..])
  }

  /** The dictionary `data` with each field's name set to its value, in order. */
  function Fill(data: Data, schema: Schema, values: seq<Value>): (r: Data)
    requires |values| == |schema|
    decreases |schema|
  {
    if schema == [] then data
    else Fill(data[schema[0].name := values[0]], schema[1..], values[1..])
  }

  lemma EncodeRecordCons(schema: Schema, values: seq<Value>)
    requires EncodableRecord(schema, values) && schema != []
    ensures EncodableRecord(schema[1..], values[1..])
    ensures Encodable(values[0], schema[0].kind)
    ensures EncodeRecord(schema, values)
      == EncodeField(values[0], schema[0].kind) + EncodeRecord(schema[1..], values[1..])
  {
  }

  /** The bytes of a record split after its first field. */
  lemma Regroup(prefix: seq<byte>, field: seq<byte>, rest: seq<byte>, tail: seq<byte>)
    ensures prefix + (field + rest) + tail == prefix + field + (rest + tail)
    ensures prefix + (field + rest) + tail == (prefix + field) + rest + tail
  {
  }

  lemma EmptyPrefix(s: seq<byte>)
    ensures [] + s == s
  {
  }

  /** An encoded record reads back field after field, whatever surrounds it. */
  lemma {:induction false} WalkRoundTrip(prefix: seq<byte>, schema: Schema, values: seq<Value>,
                                         tail: seq<byte>, data: Data)
    requires EncodableRecord(schema, values)
    ensures var w := Walk(prefix + EncodeRecord(schema, values) + tail, schema, |prefix|, data);
      w.Success? && w.value.0 == Fill(data, schema, values) &&
      w.value.1 == |prefix| + |EncodeRecord(schema, values)|
    decreases |schema|
  {
    if schema != [] {
      EncodeRecordCons(schema, values);
      var field := EncodeField(values[0], schema[0].kind);
      var rest := EncodeRecord(schema[1..], values[1..]);
      var stream := prefix + EncodeRecord(schema, values) + tail;
      var d := data[schema[0].name := values[0]];
      Regroup(prefix, field, rest, tail);
      assert stream == (prefix + field) + rest + tail;
      assert |prefix + field| == |prefix| + |field|;
      FieldRoundTrip(prefix, values[0], schema[0].kind, rest + tail);
      WalkCons(stream, schema, |prefix|, data, values[0], |prefix| + |field|);
      WalkRoundTrip(prefix + field, schema[1..], values[1..], tail, d);
      assert Walk(stream, schema, |prefix|, data) == Walk(stream, schema[1..], |prefix + field|, d);
      assert Fill(data, schema, values) == Fill(d, schema[1..], values[1..]);
    }
  }

  /** readBinData decodes an encoded record, whatever bytes follow it, to
      the dictionary of its values. */
  lemma RecordRoundTrip(schema: Schema, values: seq<Value>, tail: seq<byte>)
    requires EncodableRecord(schema, values)
    ensures RecordOf(EncodeRecord(schema, values) + tail, schema) == Success(Fill(map[], schema, values))
  {
    WalkRoundTrip([], schema, values, tail, map[]);
    EmptyPrefix(EncodeRecord(schema, values));
  }

  lemma {:induction false} FillKeepsOthers(data: Data, schema: Schema, values: seq<Value>, k: string)
    requires |values| == |schema| && k in data && k !in Names(schema)
    ensures k in Fill(data, schema, values) && Fill(data, schema, values)[k] == data[k]
    decreases |schema|
  {
    if schema != [] {
      FillKeepsOthers(data[schema[0].name := values[0]], schema[1..], values[1..], k);
    }
  }

  /** With distinct names, the dictionary holds each field's own value. */
  lemma {:induction false} FillAt(data: Data, schema: Schema, values: seq<Value>, j: nat)
    requires |values| == |schema| && DistinctNames(schema) && j < |schema|
    ensures schema[j].name in Fill(data, schema, values)
    ensures Fill(data, schema, values)[schema[j].name] == values[j]
    decreases |schema|
  {
    var d := data[schema[0].name := values[0]];
    if j == 0 {
      NamesOfFields(schema[1..], schema[0].name);
      FillKeepsOthers(d, schema[1..], values[1..], schema[0].name);
    } else {
      assert DistinctNames(schema[1..]) by {
        forall a, b | 0 <= a < b < |schema| - 1 ensures schema[1..][a].name != schema[1..][b].name {
          assert schema[1..][a] == schema[a + 1] && schema[1..][b] == schema[b + 1];
        }
      }
      FillAt(d, schema[1..], values[1..], j - 1);
    }
  }
}
