# ogaiago replay decoder, modelled in Dafny

`ogaiago.py` reads osu! replay files (`.osr`). Its core is `readBinData`. It walks the file's bytes from offset 0 against an ordered structure of `(name, type)` pairs and builds a `name -> value` dictionary. Each pair's type comes from the `dataTypes` table:

- fixed-width little-endian integers, unpacked by `unpackData` through `struct.unpack`;
- strings: a marker byte, then a ULEB128 length decoded by `uleb128Decode`, then one character per byte;
- the `rawReplay` block: a 32-bit length, then that many bytes taken verbatim.

The dictionary's hit counts feed `calcAcc`, which weighs and clamps them into an accuracy. `getTimeStamp` packs the current date and time into a decimal integer.

The modules follow the program's structure:

- `Base`: bytes, Python's exceptions as an `Error` datatype, Python slicing, and `|` / `&` on naturals.
- `Uleb128`: a reference decoder, the `uleb128Decode` loop as a method proved equal to it, and the encoding it inverts.
- `Unpack`: the type table and `unpackData`, the integer formats' packing, and both round trips.
- `Record`: one loop step and the whole walk as functions, `readBinData` as a loop method proved equal to them, and the properties of a decoded record.
- `Encoder`: the writing side of the format. A field or record is encoded by the rules the decoder reads it with, and reading it back gives the values.
- `Replay`: the 18-field structure the program reads every replay with, and a worked header.
- `Accuracy`: `clamp` and `calcAcc` on exact reals.
- `TimeStamp`: `getTimeStamp`, with the clock reading as a parameter.

A Python exception is a `Failure` carrying the matching `Error`: `IndexError`, `struct.error` (`StructError`) or `ZeroDivisionError`. A returned value is a `Success`.

## Model

| member | source | states |
|---|---|---|
| Base.ByteMasks | ogaiago.py:83-85 | `b & 127` is `b mod 128`, and `b & 128` is zero exactly when `b < 128` |
| Base.BitOrDisjoint | ogaiago.py:84 | OR-ing `x << s` into a number below `2^s` adds it, so the loop's OR accumulates the groups |
| Uleb128.Uleb128Decode | ogaiago.py:78-88 | the loop returns exactly what the reference decoder `Decode` returns, including IndexError when no byte stops the varint |
| Uleb128.DecodeCharacterized | ogaiago.py:78-88 | decoding fails exactly when every byte has bit 0x80 set; otherwise it consumes the bytes up to and including the first one without it, and the value is the sum of their 7-bit groups, least significant first |
| Uleb128.DecodeEndsAt | ogaiago.py:78-88 | a varint that ends at byte k decodes to the sum of its groups with length k |
| Uleb128.DecodeUnterminated | ogaiago.py:80-82 | bytes that all continue raise IndexError |
| Uleb128.RoundTrip | ogaiago.py:78-88 | decoding the encoding of n, followed by any bytes, gives n and the encoding's length |
| Uleb128.SingleByte | ogaiago.py:85-86 | exactly the values below 128 take one byte |
| Unpack.CodesDistinct | ogaiago.py:58-69 | the eleven type codes are pairwise distinct |
| Unpack.UnpackData | ogaiago.py:90-109 | the unpack succeeds exactly when the slice has the format's size and otherwise raises StructError; an integer format yields an integer in that format's range |
| Unpack.UnpackInteger | ogaiago.py:90-109 | integer formats read the slice little-endian, as two's complement for `<h`, `<l` and `<q` |
| Unpack.UnpackPack | ogaiago.py:90-109 | unpacking a packed integer gives it back, for every integer format |
| Unpack.PackUnpack | ogaiago.py:90-109 | packing an unpacked integer gives back the bytes, so the reading is one-to-one |
| Unpack.LittleEndianOfEncode | ogaiago.py:109 | reading `w` little-endian bytes of `n < 2^(8w)` gives `n` |
| Record.ReadOneField | ogaiago.py:115-142 | one loop body, as an if-chain on the type, equals the step function `ReadField` |
| Record.ReadStringBranch | ogaiago.py:118-126 | the string branch, calling the `uleb128Decode` loop, equals `ReadField` for strings |
| Record.ReadRawReplayBranch | ogaiago.py:135-139 | the rawReplay branch equals `ReadField` for rawReplay |
| Record.ReadBinData | ogaiago.py:111-143 | the loop over the structure returns exactly `RecordOf`, the walk from offset 0: the dictionary or the first exception |
| Record.StringMarker | ogaiago.py:118-122 | a marker past the end raises IndexError; a zero marker gives the empty string and advances by 1, whatever follows |
| Record.StringNonEmpty | ogaiago.py:123-126 | after a nonzero marker, the length varint starts at the next byte and a varint that never ends raises IndexError; otherwise the cursor moves to start + 1 + k + L and the text is the (clipped) bytes after the varint, as characters |
| Record.FixedWidthField | ogaiago.py:127-134 | the integer types advance by their format's size, succeed exactly when that many bytes remain (else StructError), and read little-endian, signed for the signed types |
| Record.RawReplayField | ogaiago.py:135-139 | rawReplay succeeds exactly when 4 bytes remain (else StructError); the cursor moves to start + 4 + L and the value is the following bytes, clipped |
| Record.NoWidthField | ogaiago.py:115-142 | a float or bytes field is never read: `end` stays at `start` and unpacking the empty slice raises StructError |
| Record.WalkAppend | ogaiago.py:113-116 | fields are read strictly in order: walking `a + b` is walking `a`, then `b` from where `a` stopped |
| Record.WalkKeepsOthers | ogaiago.py:141-142 | the walk never changes the entry of a key that no remaining field names |
| Record.FieldAt | ogaiago.py:113-116 | with distinct names, each field's entry is the value read at the cursor where the fields before it stopped |
| Record.FieldTyped | ogaiago.py:115-142 | each entry has its type's shape: an in-range integer, a text, or a byte string; float and bytes fields never decode |
| Record.RecordOutcome | ogaiago.py:111-143 | on success the dictionary's keys are exactly the structure's names; on failure some field, read at the cursor the fields before it left, raised that error |
| Record.WalkFailsAtField | ogaiago.py:113-142 | a failing walk fails at a definite field, after the fields before it were read |
| Encoder.FieldRoundTrip | ogaiago.py:115-142 | any encodable value of any readable type, encoded and surrounded by any bytes, reads back as itself, with the cursor right after it |
| Encoder.RecordRoundTrip | ogaiago.py:111-143 | readBinData decodes an encoded record, followed by any bytes, to the dictionary of its values |
| Encoder.FillAt | ogaiago.py:141-142 | with distinct names, that dictionary holds each field's own value |
| Replay.ReplaySchemaShape | ogaiago.py:246-265 | the replay structure has 18 fields with distinct names |
| Replay.ReplayCounts | ogaiago.py:246-266 | a decoded replay holds `count300`, `count100`, `count50` and `countMiss` as 16-bit unsigned integers and `rawReplay` as bytes, which is what `calcAcc` is called with |
| Replay.HeaderExample | ogaiago.py:246-250 | a stream starting `00 01000000 00 0b 04 'abcd'` decodes the four header fields to game mode 0, version 1, an empty hash and player "abcd", leaving the cursor at 12 |
| Accuracy.Clamp | ogaiago.py:71-72 | the result lies in [low, high]; it is the value when the value lies inside, otherwise the bound it passed |
| Accuracy.CalcAcc | ogaiago.py:74-76 | fails exactly when no hit was judged (ZeroDivisionError); otherwise the result lies in [0, 1] |
| Accuracy.AccuracyUnclamped | ogaiago.py:74-76 | for non-negative counts the clamp changes nothing: the accuracy is the weighted hits over 300 per hit |
| Accuracy.AllGreat | ogaiago.py:74-76 | with at least one judged hit, the accuracy is 1 exactly when every hit is a 300 |
| Accuracy.AllMisses | ogaiago.py:74-76 | with at least one judged hit, the accuracy is 0 exactly when every hit is a miss |
| Accuracy.BetterHitNoWorse | ogaiago.py:74-76 | upgrading one judgement (miss to 50, 50 to 100, 100 to 300) never lowers the accuracy |
| TimeStamp.Format02Field | ogaiago.py:151 | a field in 0..99 formats as exactly two digits that read back as itself |
| TimeStamp.DigitsValue | ogaiago.py:151 | reading back the decimal numeral of n gives n |
| TimeStamp.TimeStampPacking | ogaiago.py:149-151 | the stamp is (year - 2000)·10^10 + month·10^8 + day·10^6 + hour·10^4 + minute·10^2 + second, negated with the year part for years before 2000 |
| TimeStamp.TwelveDigits | ogaiago.py:151 | in the years 2000-2099 the formatted string is exactly twelve digits |
| TimeStamp.TwelveDigitStamp | ogaiago.py:151 | in the years 2000-2099 the stamp lies in [0, 10^12) |
| TimeStamp.StampIsBase100 | ogaiago.py:151 | from 2000 on, the stamp is the six fields read as base-100 digits |
| TimeStamp.TimeStampOrder | ogaiago.py:149-151 | from 2000 on, an earlier moment gets a smaller stamp |
| TimeStamp.StampInjective | ogaiago.py:149-151 | from 2000 on, different moments never share a stamp |

## Left out

- The database and configuration classes, the command-line script (lines 153-334 apart from the structure at 246-265), `printVerbose` and all file I/O are not part of this model.
- `datetime.datetime.now()` is not read. `GetTimeStamp` takes the moment as a `DateTime` parameter whose fields lie in `datetime`'s ranges.
- The `<f` format: a float field's four bytes are kept as `Float32(bits)`, and their IEEE-754 reading is not modelled. `readBinData` never reaches that case anyway, because float fields have no width branch.
- Accuracy uses exact reals, not IEEE doubles: rounding in `float(...) / (...)` is not modelled. The `* 100` the script applies at line 266 is not modelled either.
- Python's `|` and `&` are modelled as recursive functions on naturals rather than as machine operations. Integers are unbounded, as in Python.
- Type codes outside 0..10 behave like code 9 (`bbytes`) in both `unpackData` and `readBinData`: they fall to `<B` and have no width branch. They are therefore not a separate case.
- Python's `int()` is modelled only on the numerals `"{:02d}"` can produce: an optional minus sign, then digits.
- Behaviour of the code that the model keeps as it is:
  - The string length varint starts at the byte after the marker; the marker is never part of it.
  - A string or raw block whose stated length runs past the end of the stream is silently clipped by slicing. It is not an error.
  - A zero hit total raises ZeroDivisionError.
  - A year before 2000 formats with a minus sign, and `int()` reads the result as a negative stamp. It is not rejected.
