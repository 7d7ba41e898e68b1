/** The record layout of an osu! replay (.osr) file, as the program reads it. */
module Replay {
  import opened Base
  import opened Unpack
  import opened Record

  /** The first four fields of every replay. */
  const HeaderSchema: Schema := [
    FieldSpec("gameMode", Byte),
    FieldSpec("osuVersion", UInt32),
    FieldSpec("beatmapHash", String),
    FieldSpec("playerName", String)
  ]

  /** The structure the program hands to readBinData for every replay file. */
  const ReplaySchema: Schema := HeaderSchema + [
    FieldSpec("magicHash", String),
    FieldSpec("count300", UInt16),
    FieldSpec("count100", UInt16),
    FieldSpec("count50", UInt16),
    FieldSpec("countGeki", UInt16),
    FieldSpec("countKatu", UInt16),
    FieldSpec("countMiss", UInt16),
    FieldSpec("score", UInt32),
    FieldSpec("maxCombo", UInt16),
    FieldSpec("fullCombo", Byte),
    FieldSpec("mods", UInt32),
    FieldSpec("lifeBarGraph", String),
    FieldSpec("timeStamp", UInt64),
    FieldSpec("rawReplay", RawReplay)
  ]

  /** Eighteen fields, no name repeated, so every field keeps its own entry. */
  lemma ReplaySchemaShape()
    ensures |ReplaySchema| == 18
    ensures DistinctNames(ReplaySchema)
  {
  }

  lemma CountFields()
    ensures |ReplaySchema| == 18
    ensures ReplaySchema[5] == FieldSpec("count300", UInt16)
    ensures ReplaySchema[6] == FieldSpec("count100", UInt16)
    ensures ReplaySchema[7] == FieldSpec("count50", UInt16)
    ensures ReplaySchema[10] == FieldSpec("countMiss", UInt16)
    ensures ReplaySchema[17] == FieldSpec("rawReplay", RawReplay)
  {
  }

  lemma CountEntry(stream: seq<byte>, j: nat)
    requires RecordOf(stream, ReplaySchema).Success?
    requires j < |ReplaySchema| && ReplaySchema[j].kind == UInt16
    ensures var d := RecordOf(stream, ReplaySchema).value;
      ReplaySchema[j].name in d && d[ReplaySchema[j].name].Int? &&
      0 <= d[ReplaySchema[j].name].n < Pow2(16)
  {
    ReplaySchemaShape();
    FieldTyped(stream, ReplaySchema, j);
  }

  lemma RawEntry(stream: seq<byte>)
    requires RecordOf(stream, ReplaySchema).Success?
    ensures var d := RecordOf(stream, ReplaySchema).value;
      "rawReplay" in d && d["rawReplay"].Raw?
  {
    ReplaySchemaShape();
    FieldTyped(stream, ReplaySchema, 17);
  }

  /** A decoded replay holds the four hit counts the accuracy is computed from,
      each a 16-bit unsigned integer, and the raw replay as a byte string. */
  lemma ReplayCounts(stream: seq<byte>)
    requires RecordOf(stream, ReplaySchema).Success?
    ensures var d := RecordOf(stream, ReplaySchema).value;
      "count300" in d && "count100" in d && "count50" in d && "countMiss" in d && "rawReplay" in d &&
      d["count300"].Int? && 0 <= d["count300"].n < 65536 &&
      d["count100"].Int? && 0 <= d["count100"].n < 65536 &&
      d["count50"].Int? && 0 <= d["count50"].n < 65536 &&
      d["countMiss"].Int? && 0 <= d["countMiss"].n < 65536 &&
      d["rawReplay"].Raw?
  {
    Pow2Bytes();
    CountFields();
    CountEntry(stream, 5);
    CountEntry(stream, 6);
    CountEntry(stream, 7);
    CountEntry(stream, 10);
    RawEntry(stream);
  }

  /** The start of a replay: game mode 0, version 1, an empty beatmap hash
      (marker 0) and the player "abcd" (marker 0x0b, length 4). */
  const Header: seq<byte> := [0x00, 0x01, 0x00, 0x00, 0x00, 0x00, 0x0b, 0x04, 97, 98, 99, 100]

  lemma PlayerNameText()
    ensures Chars(Header[8..12]) == "abcd"
  {
    var c := Chars(Header[8..12]);
    assert c[0] as int == 97 && c[1] as int == 98 && c[2] as int == 99 && c[3] as int == 100;
    assert c[0] == 'a' && c[1] == 'b' && c[2] == 'c' && c[3] == 'd';
  }

  /** Any stream that starts with the header decodes, against the first four
      fields of the layout, to those four entries, leaving the cursor after it. */
  lemma HeaderExample(stream: seq<byte>)
    requires |stream| >= |Header| && stream[..|Header|] == Header
    ensures Walk(stream, HeaderSchema, 0, map[]) == Success((map[
      "gameMode" := Int(0), "osuVersion" := Int(1), "beatmapHash" := Text(""), "playerName" := Text("abcd")], 12))
  {
    var s := HeaderSchema;
    HeaderFields(stream);
    WalkCons(stream, s, 0, map[], Int(0), 1);
    var d1 := map[s[0].name := Int(0)];
    WalkCons(stream, s[1..], 1, d1, Int(1), 5);
    var d2 := d1[s[1].name := Int(1)];
    WalkCons(stream, s[2..], 5, d2, Text(""), 6);
    var d3 := d2[s[2].name := Text("")];
    WalkCons(stream, s[3..], 6, d3, Text("abcd"), 12);
    var d4 := d3[s[3].name := Text("abcd")];
    assert s[1..][1..] == s[2..] && s[2..][1..] == s[3..] && s[3..][1..] == [];
    assert Walk(stream, s, 0, map[]) == Success((d4, 12));
  }

  lemma VersionBytes()
    ensures LittleEndian([1, 0, 0, 0]) == 1
  {
    var s: seq<byte> := [1, 0, 0, 0];
    assert s[1..][1..][1..][1..] == [];
    assert LittleEndian(s[1..][1..][1..]) == 0;
  }

  /** The four fields of the header, read one at a time. */
  lemma HeaderFields(stream: seq<byte>)
    requires |stream| >= |Header| && stream[..|Header|] == Header
    ensures ReadField(stream, 0, Byte) == Success((Int(0), 1))
    ensures ReadField(stream, 1, UInt32) == Success((Int(1), 5))
    ensures ReadField(stream, 5, String) == Success((Text(""), 6))
    ensures ReadField(stream, 6, String) == Success((Text("abcd"), 12))
  {
    HeaderBytes(stream);
    GameModeField(stream);
    VersionField(stream);
    StringMarker(stream, 5, []);
    PlayerNameField(stream);
  }

  lemma HeaderBytes(stream: seq<byte>)
    requires |stream| >= |Header| && stream[..|Header|] == Header
    ensures stream[0] == 0 && stream[5] == 0 && stream[6] == 11 && stream[7] == 4
    ensures stream[1..5] == [1, 0, 0, 0] && stream[8..12] == Header[8..12]
  {
    var h := stream[..12];
    assert stream[0] == h[0] && stream[5] == h[5] && stream[6] == h[6] && stream[7] == h[7];
    assert stream[1..5] == h[1..5];
    assert stream[8..12] == h[8..12];
  }

  lemma GameModeField(stream: seq<byte>)
    requires |stream| >= 1 && stream[0] == 0
    ensures ReadField(stream, 0, Byte) == Success((Int(0), 1))
  {
    FixedWidthField(stream, 0, Byte);
    assert stream[0..1] == [0];
  }

  lemma VersionField(stream: seq<byte>)
    requires |stream| >= 5 && stream[1..5] == [1, 0, 0, 0]
    ensures ReadField(stream, 1, UInt32) == Success((Int(1), 5))
  {
    FixedWidthField(stream, 1, UInt32);
    VersionBytes();
  }

  lemma PlayerNameField(stream: seq<byte>)
    requires |stream| >= 12 && stream[6] == 11 && stream[7] == 4 && stream[8..12] == Header[8..12]
    ensures ReadField(stream, 6, String) == Success((Text("abcd"), 12))
  {
    StringNonEmpty(stream, 6);
    assert stream[7..][..1] == [4];
    Uleb128.DecodeEndsAt(stream[7..], 1);
    PlayerNameText();
  }
}
