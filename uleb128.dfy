/** ULEB128 varints (section 7.6 of the DWARF Debugging Information Format,
    Version 4): seven value bits per byte, least significant group first, the
    high bit set on every byte but the last. */
module Uleb128 {
  import opened Base

  /** What uleb128Decode returns in `arr`: the value and the bytes it took. */
  datatype Varint = Varint(value: nat, length: nat)

  /** The seven value bits of a byte (`b & 127`). */
  function Low7(b: byte): (r: nat) { b % 128 }

  /** True when `b & 128` is set: another byte follows. */
  predicate Continues(b: byte) { b >= 128 }

  /** The bytes up to index `k` (exclusive) form one complete varint: the
      last one stops, every earlier one continues. */
  ghost predicate EndsAt(num: seq<byte>, k: nat)
  {
    1 <= k <= |num| && !Continues(num[k - 1]) &&
    forall i :: 0 <= i < k - 1 ==> Continues(num[i])
  }

  /** Reference definition of decoding, one byte at a time from the front.
      Running out of bytes is Python's IndexError. */
  function Decode(num: seq<byte>): (r: Result<Varint>)
    ensures r.Success? ==> 1 <= r.value.length <= |num|
    ensures r.Failure? ==> r.error == IndexError
  {
    if |num| == 0 then Failure(IndexError)
    else if !Continues(num[0]) then Success(Varint(num[0], 1))
    else match Decode(num[1..])
      case Failure(e) => Failure(e)
      case Success(d) => Success(Varint(Low7(num[0]) + 128 * d.value, d.length + 1))
  }

  /** The sum of `(s[i] & 127) << 7*i` over all bytes of `s`. */
  function Groups(s: seq<byte>): (r: nat)
  {
    if s == [] then 0
    else Groups(s[..|s| - 1]) + Low7(s[|s| - 1]) * Pow2(7 * (|s| - 1))
  }

  /** Extending a prefix by one byte adds that byte's group at its place. */
  lemma GroupsSnoc(s: seq<byte>, k: nat)
    requires k < |s|
    ensures Groups(s[..k + 1]) == Groups(s[..k]) + Low7(s[k]) * Pow2(7 * k)
  {
    assert s[..k + 1][..k] == s[..k];
  }

  lemma {:induction false} GroupsBound(s: seq<byte>)
    ensures Groups(s) < Pow2(7 * |s|)
  {
    if s != [] {
      var n := |s| - 1;
      var p := Pow2(7 * n);
      GroupsBound(s[..n]);
      Pow2Add(7 * n, 7);
      assert Pow2(7) == 128;
      assert Pow2(7 * |s|) == 128 * p;
      MulMono(Low7(s[n]), 127, p);
      assert Groups(s) == Groups(s[..n]) + Low7(s[n]) * p;
    }
  }

  lemma MulMono(a: nat, b: nat, c: nat)
    requires a <= b
    ensures a * c <= b * c
  {
  }

  lemma {:induction false} GroupsCons(b: byte, s: seq<byte>)
    ensures Groups([b] + s) == Low7(b) + 128 * Groups(s)
  {
    var t := [b] + s;
    if s == [] {
      assert t[..0] == [];
    } else {
      var n := |s| - 1;
      assert t[..|t| - 1] == [b] + s[..n];
      assert t[|t| - 1] == s[n];
      GroupsCons(b, s[..n]);
      Pow2Add(7, 7 * n);
      assert Pow2(7) == 128;
      assert Pow2(7 * (|t| - 1)) == 128 * Pow2(7 * n);
      calc {
        Groups(t);
        Groups([b] + s[..n]) + Low7(s[n]) * (128 * Pow2(7 * n));
        Low7(b) + 128 * Groups(s[..n]) + 128 * (Low7(s[n]) * Pow2(7 * n));
        Low7(b) + 128 * Groups(s);
      }
    }
  }

  /** A varint that ends at `k` decodes to the sum of its groups and takes `k` bytes. */
  lemma {:induction false} DecodeEndsAt(num: seq<byte>, k: nat)
    requires EndsAt(num, k)
    ensures Decode(num) == Success(Varint(Groups(num[..k]), k))
  {
    if k == 1 {
      assert num[..1][..0] == [];
    } else {
      assert Continues(num[0]);
      assert EndsAt(num[1..], k - 1);
      DecodeEndsAt(num[1..], k - 1);
      assert num[..k] == [num[0]] + num[1..][..k - 1];
      GroupsCons(num[0], num[1..][..k - 1]);
    }
  }

  /** Bytes that all continue never end a varint: decoding raises an IndexError. */
  lemma {:induction false} DecodeUnterminated(num: seq<byte>)
    requires forall i :: 0 <= i < |num| ==> Continues(num[i])
    ensures Decode(num) == Failure(IndexError)
  {
    if |num| > 0 {
      DecodeUnterminated(num[1..]);
    }
  }

  /** The definition of uleb128Decode in closed form: decoding succeeds exactly
      when some byte stops the varint; it then consumes the bytes up to and
      including the first one that stops, and the value is the sum of their groups. */
  lemma {:induction false} DecodeCharacterized(num: seq<byte>)
    ensures Decode(num).Success? ==>
      EndsAt(num, Decode(num).value.length) &&
      Decode(num).value.value == Groups(num[..Decode(num).value.length])
    ensures Decode(num).Failure? <==> forall i :: 0 <= i < |num| ==> Continues(num[i])
  {
    if |num| == 0 {
    } else if !Continues(num[0]) {
      DecodeEndsAt(num, 1);
    } else {
      DecodeCharacterized(num[1..]);
      match Decode(num[1..])
      case Failure(_) =>
        assert forall i :: 0 <= i < |num| - 1 ==> num[1..][i] == num[i + 1];
      case Success(d) =>
        var k := d.length + 1;
        assert EndsAt(num, k) by {
          assert forall i :: 0 <= i < k - 2 ==> num[1..][i] == num[i + 1];
        }
        DecodeEndsAt(num, k);
        assert !Continues(num[k - 1]);
    }
  }

  /** One loop step: OR-ing the next group into the prefix's sum extends it by one byte. */
  lemma AccumulateGroup(num: seq<byte>, k: nat)
    requires k < |num|
    ensures BitOr(Groups(num[..k]), Low7(num[k]) * Pow2(7 * k)) == Groups(num[..k + 1])
  {
    GroupsBound(num[..k]);
    BitOrDisjoint(Groups(num[..k]), Low7(num[k]), 7 * k);
    GroupsSnoc(num, k);
  }

  /** uleb128Decode: the `while True` loop that ORs `(b & 127) << shift` into
      `arr[0]` and counts bytes in `arr[1]`, stopping after the first byte whose
      bit 0x80 is clear; indexing past the end raises IndexError. */
  method Uleb128Decode(num: seq<byte>) returns (r: Result<Varint>)
    ensures r == Decode(num)
  {
    var shift: nat := 0;
    var value: nat, count: nat := 0, 0;
    while true
      invariant count <= |num|
      invariant shift == 7 * count
      invariant forall i :: 0 <= i < count ==> Continues(num[i])
      invariant value == Groups(num[..count])
      decreases |num| - count
    {
      if count >= |num| {
        DecodeUnterminated(num);
        return Failure(IndexError);
      }
      var b := num[count];
      ByteMasks(b);
      var group := BitAnd(b, 127);
      AccumulateGroup(num, count);
      count := count + 1;
      value := BitOr(value, group * Pow2(shift));
      if BitAnd(b, 128) == 0 {
        DecodeEndsAt(num, count);
        return Success(Varint(value, count));
      }
      shift := shift + 7;
    }
  }

  /** The ULEB128 encoding of `n`, seven bits at a time, in as few bytes as possible. */
  function Encode(n: nat): (r: seq<byte>)
    ensures EndsAt(r, |r|)
  {
    if n < 128 then [n]
    else
      var rest := Encode(n / 128);
      assert forall i :: 0 <= i < |rest| ==> ([n % 128 + 128] + rest)[i + 1] == rest[i];
      [n % 128 + 128] + rest
  }

  /** Decoding the encoding of `n`, whatever follows it, gives back `n` and the
      length of the encoding. */
  lemma {:induction false} RoundTrip(n: nat, rest: seq<byte>)
    ensures Decode(Encode(n) + rest) == Success(Varint(n, |Encode(n)|))
  {
    var s := Encode(n) + rest;
    if n >= 128 {
      assert s[1..] == Encode(n / 128) + rest;
      RoundTrip(n / 128, rest);
    }
  }

  /** Exactly the values below 128 take a single byte. */
  lemma SingleByte(n: nat)
    ensures |Encode(n)| == 1 <==> n < 128
  {
    if n >= 128 {
      assert |Encode(n)| == 1 + |Encode(n / 128)|;
    }
  }
}
