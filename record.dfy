/** readBinData: walks a replay byte stream forward against an ordered list
    of (name, type) pairs and collects a name -> value dictionary. */
module Record {
  import opened Base
  import opened Unpack
  import Uleb128

  /** One entry of the structure list: a field name and its type. */
  datatype FieldSpec = FieldSpec(name: string, kind: DataType)

  type Schema = seq<FieldSpec>

  /** The dictionary readBinData builds. */
  type Data = map<string, Value>

  /** `''.join(chr(j) for j in bs)`: one character per byte, code point = byte. */
  function Chars(bs: seq<byte>): (s: string)
    ensures |s| == |bs|
    ensures forall i :: 0 <= i < |bs| ==> s[i] as int == bs[i]
  {
    seq(|bs|, i requires 0 <= i < |bs| => bs[i] as char)
  }

  /** How far the width branches of readBinData put `end` past `start`; the
      types without a branch (Float, Bytes) leave `end == start`. */
  function Advance(t: DataType): (r: nat)
  {
    match t
    case Byte => 1
    case UInt16 | SInt16 => 2
    case UInt32 | SInt32 => 4
    case UInt64 | SInt64 => 8
    case _ => 0
  }

  /** The fixed-width integer types, which readBinData hands to unpackData. */
  predicate FixedInteger(t: DataType)
  {
    t == Byte || SignedFormat(t) || t == UInt16 || t == UInt32 || t == UInt64
  }

  /** The width branches move `end` by the size of the format unpackData uses.
      FixedWidthField restates this beside the rest of a field's reading;
      this lemma is the fact alone, for callers that need nothing else. */
  lemma FixedAdvance(t: DataType)
    requires FixedInteger(t)
    ensures Advance(t) == FormatSize(t)
  {
  }

  /** The string branch: a marker byte, 0 for the empty string; otherwise a
      ULEB128 length read from the byte after the marker, then that many
      one-byte characters (a short payload is clipped, as slicing does). */
  function ReadString(stream: seq<byte>, start: nat): (r: Result<(Value, nat)>)
  {
    if start >= |stream| then Failure(IndexError)
    else if stream[start] == 0 then Success((Text(""), start + 1))
    else match Uleb128.Decode(Slice(stream, start + 1, |stream|))
      case Failure(e) => Failure(e)
      case Success(length) =>
        var end := start + length.value + length.length + 1;
        Success((Text(Chars(Slice(stream, start + 1 + length.length, end))), end))
  }

  /** The rawReplay branch: a four-byte little-endian length, then that many
      bytes taken verbatim (clipped at the end of the stream). */
  function ReadRawReplay(stream: seq<byte>, start: nat): (r: Result<(Value, nat)>)
  {
    match UnpackData(Slice(stream, start, start + 4), UInt32)
    case Failure(e) => Failure(e)
    case Success(length) =>
      var end := start + 4 + length.n;
      Success((Raw(Slice(stream, start + 4, end)), end))
  }

  /** One iteration of readBinData's loop: the value of the field and the new
      `end`, given `start` (the previous field's `end`). */
  function ReadField(stream: seq<byte>, start: nat, t: DataType): (r: Result<(Value, nat)>)
    ensures r.Success? ==> r.value.1 >= start
  {
    match t
    case String => ReadString(stream, start)
    case RawReplay => ReadRawReplay(stream, start)
    case _ =>
      var end := start + Advance(t);
      match UnpackData(Slice(stream, start, end), t)
      case Failure(e) => Failure(e)
      case Success(v) => Success((v, end))
  }

  /** The names a schema mentions. */
  function Names(schema: Schema): (r: set<string>)
  {
    if schema == [] then {} else {schema[0].name} + Names(schema[1..])
  }

  /** The rest of readBinData's loop from cursor `end` with dictionary `data`
      so far: the final dictionary and cursor, or the first exception. */
  function Walk(stream: seq<byte>, schema: Schema, end: nat, data: Data): (r: Result<(Data, nat)>)
    ensures r.Success? ==> r.value.1 >= end
    ensures r.Success? ==> r.value.0.Keys == data.Keys + Names(schema)
    decreases |schema|
  {
    if schema == [] then Success((data, end))
    else match ReadField(stream, end, schema[0].kind)
      case Failure(e) => Failure(e)
      case Success((v, next)) => Walk(stream, schema[1..], next, data[schema[0].name := v])
  }

  /** What readBinData returns: the dictionary of a walk from offset 0. */
  function RecordOf(stream: seq<byte>, schema: Schema): (r: Result<Data>)
    ensures r.Success? ==> r.value.Keys == Names(schema)
  {
    match Walk(stream, schema, 0, map[])
    case Failure(e) => Failure(e)
    case Success((data, _)) => Success(data)
  }

  /** The string marker: past the end of the stream it raises IndexError; a
      zero marker is the empty string, takes one byte, and whatever follows it
      does not matter. */
  lemma StringMarker(stream: seq<byte>, start: nat, rest: seq<byte>)
    ensures start >= |stream| ==> ReadField(stream, start, String) == Failure(IndexError)
    ensures start < |stream| && stream[start] == 0 ==>
      ReadField(stream, start, String) == Success((Text(""), start + 1)) &&
      ReadField(stream[..start + 1] + rest, start, String) == Success((Text(""), start + 1))
  {
    if start < |stream| {
      assert (stream[..start + 1] + rest)[start] == stream[start];
    }
  }

  /** A string whose marker is nonzero: the ULEB128 length [L, k] starts at the
      byte after the marker (a varint that never ends raises IndexError), the
      cursor moves to start + 1 + k + L, and the text holds the stream's bytes
      from start + 1 + k up to there, as characters, clipped at the end. */
  lemma StringNonEmpty(stream: seq<byte>, start: nat)
    requires start < |stream| && stream[start] != 0
    ensures Uleb128.Decode(stream[start + 1..]).Failure? ==>
      ReadField(stream, start, String) == Failure(IndexError)
    ensures Uleb128.Decode(stream[start + 1..]).Success? ==>
      var length := Uleb128.Decode(stream[start + 1..]).value;
      var from := start + 1 + length.length;
      var end := from + length.value;
      from <= |stream| &&
      ReadField(stream, start, String) == Success((Text(Chars(stream[from..Min(end, |stream|)])), end))
  {
    assert Slice(stream, start + 1, |stream|) == stream[start + 1..];
    match Uleb128.Decode(stream[start + 1..])
    case Failure(_) =>
    case Success(length) =>
      var from := start + 1 + length.length;
      var end := from + length.value;
      StringWithLength(stream, start, length);
      assert Slice(stream, from, end) == stream[from..Min(end, |stream|)];
  }

  /** Byte, 16-, 32- and 64-bit fields: they take exactly the format's size,
      read it little-endian (two's complement for the signed types), and raise
      struct.error when fewer bytes remain. */
  lemma FixedWidthField(stream: seq<byte>, start: nat, t: DataType)
    requires FixedInteger(t)
    ensures Advance(t) == FormatSize(t)
    ensures ReadField(stream, start, t).Success? <==> start + Advance(t) <= |stream|
    ensures ReadField(stream, start, t).Failure? ==> ReadField(stream, start, t).error == StructError
    ensures start + Advance(t) <= |stream| ==>
      var bytes := stream[start..start + Advance(t)];
      var n := LittleEndian(bytes);
      ReadField(stream, start, t) ==
        Success((Int(if SignedFormat(t) then Signed(n, |bytes|) else n), start + Advance(t)))
  {
    var end := start + Advance(t);
    FixedAdvance(t);
    UnpackRead(stream, start, t);
    if end <= |stream| {
      var bytes := stream[start..end];
      assert Slice(stream, start, end) == bytes;
      UnpackInteger(bytes, t);
    }
  }

  /** Every type but String and RawReplay is unpackData applied to the
      `Advance(t)` bytes at `start`. */
  lemma UnpackRead(stream: seq<byte>, start: nat, t: DataType)
    requires t != String && t != RawReplay
    ensures var u := UnpackData(Slice(stream, start, start + Advance(t)), t);
      (ReadField(stream, start, t).Success? <==> u.Success?) &&
      (u.Success? ==> ReadField(stream, start, t).value == (u.value, start + Advance(t))) &&
      (u.Failure? ==> ReadField(stream, start, t).error == u.error)
  {
  }

  /** The rawReplay field: a four-byte little-endian length L at `start`
      (struct.error when fewer than four bytes remain), the cursor moves to
      start + 4 + L, and the value is the bytes from start + 4 up to there,
      verbatim, clipped at the end of the stream. */
  lemma RawReplayField(stream: seq<byte>, start: nat)
    ensures ReadField(stream, start, RawReplay).Success? <==> start + 4 <= |stream|
    ensures ReadField(stream, start, RawReplay).Failure? ==>
      ReadField(stream, start, RawReplay).error == StructError
    ensures start + 4 <= |stream| ==>
      var end := start + 4 + LittleEndian(stream[start..start + 4]);
      ReadField(stream, start, RawReplay) == Success((Raw(stream[start + 4..Min(end, |stream|)]), end))
  {
    if start + 4 <= |stream| {
      assert Slice(stream, start, start + 4) == stream[start..start + 4];
      var end := start + 4 + LittleEndian(stream[start..start + 4]);
      assert Slice(stream, start + 4, end) == stream[start + 4..Min(end, |stream|)];
    }
  }

  /** Float and Bytes have no width branch in readBinData: `end` stays at
      `start` and unpacking the empty slice always raises struct.error. */
  lemma NoWidthField(stream: seq<byte>, start: nat, t: DataType)
    requires t == Float || t == Bytes
    ensures ReadField(stream, start, t) == Failure(StructError)
  {
  }

  /** A string whose marker is nonzero: its length is the varint that starts
      right after the marker, and the text follows the varint. This is
      StringNonEmpty before the Python slices are rewritten as Dafny ones; it
      is stated on `Slice` because that is the form ReadStringBranch holds. */
  lemma StringWithLength(stream: seq<byte>, start: nat, length: Uleb128.Varint)
    requires start < |stream| && stream[start] != 0
    requires Uleb128.Decode(Slice(stream, start + 1, |stream|)) == Success(length)
    ensures var end := start + 1 + length.length + length.value;
      ReadField(stream, start, String) ==
        Success((Text(Chars(Slice(stream, start + 1 + length.length, end))), end))
  {
  }

  /** A walk result carried on over further fields. */
  function Then(r: Result<(Data, nat)>, stream: seq<byte>, rest: Schema): (w: Result<(Data, nat)>)
  {
    match r
    case Failure(e) => Failure(e)
    case Success((data, end)) => Walk(stream, rest, end, data)
  }

  /** A walk whose first field reads `v` goes on from where that field ends. */
  lemma WalkCons(stream: seq<byte>, schema: Schema, end: nat, data: Data, v: Value, next: nat)
    requires schema != [] && ReadField(stream, end, schema[0].kind).Success?
    requires ReadField(stream, end, schema[0].kind).value.0 == v
    requires ReadField(stream, end, schema[0].kind).value.1 == next
    ensures Walk(stream, schema, end, data) == Walk(stream, schema[1..], next, data[schema[0].name := v])
  {
  }

  /** Fields are read strictly in schema order: walking `a + b` is walking
      `a` and then walking `b` from the cursor and dictionary `a` left. */
  lemma {:induction false} WalkAppend(stream: seq<byte>, a: Schema, b: Schema, end: nat, data: Data)
    ensures Walk(stream, a + b, end, data) == Then(Walk(stream, a, end, data), stream, b)
    decreases |a|
  {
    if a == [] {
      assert a + b == b;
    } else {
      assert (a + b)[0] == a[0] && (a + b)[1..] == a[1..] + b;
      match ReadField(stream, end, a[0].kind)
      case Failure(_) =>
      case Success((v, next)) =>
        WalkAppend(stream, a[1..], b, next, data[a[0].name := v]);
    }
  }

  /** Every name in Names(schema) is the name of one of its fields. */
  lemma {:induction false} NamesOfFields(schema: Schema, x: string)
    ensures x in Names(schema) <==> exists i :: 0 <= i < |schema| && schema[i].name == x
  {
    if schema != [] {
      NamesOfFields(schema[1..], x);
      if x in Names(schema[1..]) {
        var i :| 0 <= i < |schema[1..]| && schema[1..][i].name == x;
        assert schema[i + 1].name == x;
      }
      if exists i :: 0 <= i < |schema| && schema[i].name == x {
        var i :| 0 <= i < |schema| && schema[i].name == x;
        if i > 0 {
          assert schema[1..][i - 1].name == x;
        }
      }
    }
  }

  /** A walk never changes the entry of a key that no remaining field names. */
  lemma {:induction false} WalkKeepsOthers(stream: seq<byte>, schema: Schema, end: nat, data: Data, k: string)
    requires Walk(stream, schema, end, data).Success?
    requires k in data && k !in Names(schema)
    ensures Walk(stream, schema, end, data).value.0[k] == data[k]
    decreases |schema|
  {
    if schema != [] {
      match ReadField(stream, end, schema[0].kind)
      case Failure(_) =>
      case Success((v, next)) =>
        WalkKeepsOthers(stream, schema[1..], next, data[schema[0].name := v], k);
    }
  }

  /** No two fields of the schema share a name. */
  ghost predicate DistinctNames(schema: Schema)
  {
    forall i, j :: 0 <= i < j < |schema| ==> schema[i].name != schema[j].name
  }

  /** Each field's `start` is the previous field's `end`: when names are
      distinct, the entry of field j is the value read at the cursor where
      the walk over the fields before j stopped. */
  lemma FieldAt(stream: seq<byte>, schema: Schema, j: nat)
    requires DistinctNames(schema) && j < |schema|
    requires RecordOf(stream, schema).Success?
    ensures Walk(stream, schema[..j], 0, map[]).Success?
    ensures var start := Walk(stream, schema[..j], 0, map[]).value.1;
      ReadField(stream, start, schema[j].kind).Success? &&
      schema[j].name in RecordOf(stream, schema).value &&
      RecordOf(stream, schema).value[schema[j].name] == ReadField(stream, start, schema[j].kind).value.0
  {
    assert schema == schema[..j] + schema[j..];
    WalkAppend(stream, schema[..j], schema[j..], 0, map[]);
    var rest := schema[j..];
    var (data, start) := Walk(stream, schema[..j], 0, map[]).value;
    assert rest[0] == schema[j] && rest[1..] == schema[j + 1..];
    var (v, next) := ReadField(stream, start, schema[j].kind).value;
    var name := schema[j].name;
    NamesOfFields(schema[j + 1..], name);
    NamesOfFields(schema, name);
    assert name !in Names(schema[j + 1..]);
    WalkKeepsOthers(stream, schema[j + 1..], next, data[name := v], name);
  }

  /** Each entry has the shape its type promises: an integer in the type's
      range for the fixed-width types, a text for strings, a byte string for
      rawReplay. */
  lemma FieldTyped(stream: seq<byte>, schema: Schema, j: nat)
    requires DistinctNames(schema) && j < |schema|
    requires RecordOf(stream, schema).Success?
    ensures schema[j].name in RecordOf(stream, schema).value
    ensures var v := RecordOf(stream, schema).value[schema[j].name];
      (FixedInteger(schema[j].kind) ==> v.Int? && InRange(v.n, schema[j].kind)) &&
      (schema[j].kind == String ==> v.Text?) &&
      (schema[j].kind == RawReplay ==> v.Raw?) &&
      schema[j].kind != Float && schema[j].kind != Bytes
  {
    FieldAt(stream, schema, j);
    FieldShape(stream, Walk(stream, schema[..j], 0, map[]).value.1, schema[j].kind);
  }

  /** The shape of a value read successfully at one cursor. */
  lemma FieldShape(stream: seq<byte>, start: nat, t: DataType)
    requires ReadField(stream, start, t).Success?
    ensures var v := ReadField(stream, start, t).value.0;
      (FixedInteger(t) ==> v.Int? && InRange(v.n, t)) &&
      (t == String ==> v.Text?) &&
      (t == RawReplay ==> v.Raw?) &&
      t != Float && t != Bytes
  {
    if t == Float || t == Bytes {
      NoWidthField(stream, start, t);
    } else if t != String && t != RawReplay {
      UnpackRead(stream, start, t);
    }
  }

  /** A walk that fails fails at some field: the fields before it were read,
      and reading that field at the cursor they left raised the same error. */
  lemma {:induction false} WalkFailsAtField(stream: seq<byte>, schema: Schema, end: nat, data: Data)
    requires Walk(stream, schema, end, data).Failure?
    ensures exists j :: (0 <= j < |schema| && Walk(stream, schema[..j], end, data).Success? &&
      ReadField(stream, Walk(stream, schema[..j], end, data).value.1, schema[j].kind)
        == Failure(Walk(stream, schema, end, data).error))
    decreases |schema|
  {
    assert schema[..0] == [];
    match ReadField(stream, end, schema[0].kind)
    case Failure(_) =>
      assert Walk(stream, schema[..0], end, data) == Success((data, end));
    case Success((v, next)) =>
      var d := data[schema[0].name := v];
      WalkFailsAtField(stream, schema[1..], next, d);
      var j :| 0 <= j < |schema[1..]| && Walk(stream, schema[1..][..j], next, d).Success? &&
        ReadField(stream, Walk(stream, schema[1..][..j], next, d).value.1, schema[1..][j].kind)
          == Failure(Walk(stream, schema[1..], next, d).error);
      PrefixWalkCons(stream, schema, end, data, v, next, j);
      assert schema[1..][j] == schema[j + 1];
  }

  /** Walking the first j + 1 fields is reading the first and walking j more. */
  lemma PrefixWalkCons(stream: seq<byte>, schema: Schema, end: nat, data: Data, v: Value, next: nat, j: nat)
    requires j < |schema| && ReadField(stream, end, schema[0].kind).Success?
    requires ReadField(stream, end, schema[0].kind).value.0 == v
    requires ReadField(stream, end, schema[0].kind).value.1 == next
    ensures Walk(stream, schema[..j + 1], end, data)
      == Walk(stream, schema[1..][..j], next, data[schema[0].name := v])
  {
    assert schema[..j + 1][0] == schema[0] && schema[..j + 1][1..] == schema[1..][..j];
    WalkCons(stream, schema[..j + 1], end, data, v, next);
  }

  /** readBinData never returns a partial dictionary: on success it holds
      exactly one entry per field name; on failure some field, read at the
      cursor the fields before it left, raised the error. */
  lemma RecordOutcome(stream: seq<byte>, schema: Schema)
    ensures RecordOf(stream, schema).Success? ==>
      forall x :: x in RecordOf(stream, schema).value <==> exists i :: 0 <= i < |schema| && schema[i].name == x
    ensures RecordOf(stream, schema).Failure? ==>
      exists j :: (0 <= j < |schema| && Walk(stream, schema[..j], 0, map[]).Success? &&
        ReadField(stream, Walk(stream, schema[..j], 0, map[]).value.1, schema[j].kind)
          == Failure(RecordOf(stream, schema).error))
  {
    if RecordOf(stream, schema).Success? {
      forall x ensures x in RecordOf(stream, schema).value <==> exists i :: 0 <= i < |schema| && schema[i].name == x {
        NamesOfFields(schema, x);
      }
    } else {
      WalkFailsAtField(stream, schema, 0, map[]);
    }
  }

  /** The body of readBinData's loop for one field: the if-chain on the type
      that sets `end` (and, for strings and rawReplay, the value itself),
      then unpackData on `stream[start:end]` when the chain asks for it. */
  method ReadOneField(stream: seq<byte>, start: nat, kind: DataType) returns (r: Result<(Value, nat)>)
    ensures r == ReadField(stream, start, kind)
  {
    var end: nat := start;
    if kind == String {
      r := ReadStringBranch(stream, start);
      return;
    } else if kind == Byte {
      end := start + 1;
    } else if kind == UInt16 || kind == SInt16 {
      end := start + 2;
    } else if kind == UInt32 || kind == SInt32 {
      end := start + 4;
    } else if kind == UInt64 || kind == SInt64 {
      end := start + 8;
    } else if kind == RawReplay {
      r := ReadRawReplayBranch(stream, start);
      return;
    }
    assert end == start + Advance(kind);
    UnpackRead(stream, start, kind);
    var v := UnpackData(Slice(stream, start, end), kind);
    if v.Failure? {
      return Failure(v.error);
    }
    return Success((v.value, end));
  }

  /** The string branch of the if-chain: the marker, then the varint length
      decoded by uleb128Decode, then the characters. */
  method ReadStringBranch(stream: seq<byte>, start: nat) returns (r: Result<(Value, nat)>)
    ensures r == ReadField(stream, start, String)
  {
    if start >= |stream| {
      return Failure(IndexError);
    }
    if stream[start] == 0 {
      return Success((Text(""), start + 1));
    }
    var length := Uleb128.Uleb128Decode(Slice(stream, start + 1, |stream|));
    if length.Failure? {
      return Failure(length.error);
    }
    var end := start + length.value.value + length.value.length + 1;
    StringWithLength(stream, start, length.value);
    return Success((Text(Chars(Slice(stream, start + 1 + length.value.length, end))), end));
  }

  /** The rawReplay branch of the if-chain: the 32-bit length, then the bytes. */
  method ReadRawReplayBranch(stream: seq<byte>, start: nat) returns (r: Result<(Value, nat)>)
    ensures r == ReadField(stream, start, RawReplay)
  {
    var length := UnpackData(Slice(stream, start, start + 4), UInt32);
    if length.Failure? {
      return Failure(length.error);
    }
    var end := start + 4 + length.value.n;
    return Success((Raw(Slice(stream, start + 4, end)), end));
  }

  /** readBinData: for each (name, type) of the structure, `start` takes the
      previous field's `end`, the field is read there, and its value is stored
      under its name; the first exception ends the call. */
  method ReadBinData(stream: seq<byte>, structure: Schema) returns (r: Result<Data>)
    ensures r == RecordOf(stream, structure)
  {
    var data: Data := map[];
    var start: nat, end: nat := 0, 0;
    for i := 0 to |structure|
      invariant Walk(stream, structure, 0, map[]) == Walk(stream, structure[i..], end, data)
    {
      var field := structure[i];
      assert structure[i..][0] == field && structure[i..][1..] == structure[i + 1..];
      start := end;
      var read := ReadOneField(stream, start, field.kind);
      if read.Failure? {
        return Failure(read.error);
      }
      data := data[field.name := read.value.0];
      end := read.value.1;
    }
    return Success(data);
  }
}
