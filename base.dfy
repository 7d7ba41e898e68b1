/** Shared vocabulary of the decoder: bytes, Python's exceptions as errors,
    powers of two, Python slicing and bitwise OR on naturals. */
module Base {

  /** A byte as indexing a Python `bytes` object yields it: an int in 0..255. */
  type byte = b: int | 0 <= b < 256

  /** The exceptions the decoding code can raise. */
  datatype Error =
    | IndexError         // indexing a bytes object at or past its end
    | StructError        // struct.unpack given a buffer of the wrong size
    | ZeroDivisionError  // float division by zero

  /** Either the value a Python expression evaluates to, or the exception it raises. */
  datatype Result<T> = Success(value: T) | Failure(error: Error)

  function Min(a: int, b: int): (r: int) { if a <= b then a else b }

  function Pow2(n: nat): (r: nat)
    ensures r >= 1
  {
    if n == 0 then 1 else 2 * Pow2(n - 1)
  }

  lemma {:induction false} Pow2Add(a: nat, b: nat)
    ensures Pow2(a + b) == Pow2(a) * Pow2(b)
  {
    if b > 0 {
      Pow2Add(a, b - 1);
      assert Pow2(a + b) == 2 * Pow2(a + b - 1);
    }
  }

  lemma Pow2Bytes()
    ensures Pow2(8) == 256 && Pow2(16) == 65536 && Pow2(32) == 4294967296
  {
    assert Pow2(8) == 256;
    Pow2Add(8, 8);
    Pow2Add(16, 16);
  }

  /** Python's `s[i:j]` for non-negative bounds: both bounds are clipped to the
      length, and a slice whose start is not below its end is empty. */
  function Slice<T>(s: seq<T>, i: nat, j: nat): (r: seq<T>)
    ensures |r| == if i < Min(j, |s|) then Min(j, |s|) - i else 0
    ensures forall k :: 0 <= k < |r| ==> r[k] == s[i + k]
  {
    var hi := if j < |s| then j else |s|;
    var lo := if i < hi then i else hi;
    s[lo..hi]
  }

  /** Python's `a | b` on non-negative integers, bit by bit from the lowest. */
  function BitOr(a: nat, b: nat): (r: nat)
    decreases a + b
  {
    if a == 0 then b
    else if b == 0 then a
    else 2 * BitOr(a / 2, b / 2) + (if a % 2 == 1 || b % 2 == 1 then 1 else 0)
  }

  /** When every bit of `a` lies below bit `s`, OR-ing in `x << s` adds it. */
  lemma {:induction false} BitOrDisjoint(a: nat, x: nat, s: nat)
    requires a < Pow2(s)
    ensures BitOr(a, x * Pow2(s)) == a + x * Pow2(s)
  {
    var b := x * Pow2(s);
    if a == 0 || b == 0 {
    } else {
      assert s > 0;
      assert Pow2(s) == 2 * Pow2(s - 1);
      assert b == 2 * (x * Pow2(s - 1));
      assert b % 2 == 0 && b / 2 == x * Pow2(s - 1);
      assert a / 2 < Pow2(s - 1);
      BitOrDisjoint(a / 2, x, s - 1);
      assert BitOr(a, b) == 2 * (a / 2 + x * Pow2(s - 1)) + a % 2;
    }
  }

  /** Python's `a & b` on non-negative integers, bit by bit from the lowest. */
  function BitAnd(a: nat, b: nat): (r: nat)
    decreases a + b
  {
    if a == 0 || b == 0 then 0
    else 2 * BitAnd(a / 2, b / 2) + (if a % 2 == 1 && b % 2 == 1 then 1 else 0)
  }

  /** The k lowest bits of `a`, as a number. */
  function LowBits(a: nat, k: nat): (r: nat)
  {
    if k == 0 then 0 else 2 * LowBits(a / 2, k - 1) + a % 2
  }

  /** `a >> k`. */
  function HighBits(a: nat, k: nat): (r: nat)
  {
    if k == 0 then a else HighBits(a / 2, k - 1)
  }

  /** The number written as k one bits. */
  function Ones(k: nat): (r: nat)
  {
    if k == 0 then 0 else 2 * Ones(k - 1) + 1
  }

  lemma MulAtLeast(m: nat, d: int)
    requires d >= 1
    ensures m * d >= m
  {
  }

  /** A multiple of m strictly between -m and m is zero. */
  lemma SmallMultiple(m: nat, d: int)
    requires m >= 1 && -(m as int) < m * d < m
    ensures d == 0
  {
    if d > 0 {
      MulAtLeast(m, d);
    } else if d < 0 {
      MulAtLeast(m, -d);
    }
  }

  /** Division with remainder has exactly one result. */
  lemma DivModUnique(a: nat, m: nat, q: nat, r: nat)
    requires 0 <= r < m && a == m * q + r
    ensures a / m == q && a % m == r
  {
    var q0, r0 := a / m, a % m;
    assert m * (q - q0) == r0 - r;
    SmallMultiple(m, q - q0);
  }

  lemma AndOdd(a: nat, m: nat)
    requires m % 2 == 1
    ensures BitAnd(a, m) == 2 * BitAnd(a / 2, m / 2) + a % 2
  {
  }

  lemma AndEven(a: nat, m: nat)
    requires m % 2 == 0
    ensures BitAnd(a, m) == 2 * BitAnd(a / 2, m / 2)
  {
  }

  /** AND with k one bits keeps the k lowest bits. */
  lemma {:induction false} AndOnes(a: nat, k: nat)
    ensures BitAnd(a, Ones(k)) == LowBits(a, k)
  {
    if k > 0 {
      AndOdd(a, Ones(k));
      AndOnes(a / 2, k - 1);
    }
  }

  lemma {:induction false} LowBitsBelow(a: nat, k: nat)
    ensures LowBits(a, k) <= Ones(k)
  {
    if k > 0 {
      LowBitsBelow(a / 2, k - 1);
    }
  }

  /** `a` is its bits from k up, shifted, followed by its k lowest bits. */
  lemma {:induction false} SplitBits(a: nat, k: nat)
    ensures a == (Ones(k) + 1) * HighBits(a, k) + LowBits(a, k)
  {
    if k > 0 {
      SplitBits(a / 2, k - 1);
      var h, l := HighBits(a / 2, k - 1), LowBits(a / 2, k - 1);
      assert a / 2 == (Ones(k - 1) + 1) * h + l;
      assert a == 2 * (a / 2) + a % 2;
      assert Ones(k) + 1 == 2 * (Ones(k - 1) + 1);
      assert (Ones(k) + 1) * h == 2 * ((Ones(k - 1) + 1) * h);
    }
  }

  /** AND with the single bit k is zero exactly when bit k of `a` is clear. */
  lemma {:induction false} AndBit(a: nat, k: nat)
    ensures BitAnd(a, Ones(k) + 1) == 0 <==> HighBits(a, k) % 2 == 0
  {
    if k == 0 {
      AndOdd(a, 1);
    } else {
      AndEven(a, Ones(k) + 1);
      AndBit(a / 2, k - 1);
    }
  }

  /** The two masks the varint loop applies to a byte: `b & 127` is the
      remainder mod 128, and `b & 128` is zero exactly below 128. */
  lemma ByteMasks(b: byte)
    ensures BitAnd(b, 127) == b % 128
    ensures BitAnd(b, 128) == 0 <==> b < 128
  {
    assert Ones(7) == 127;
    AndOnes(b, 7);
    AndBit(b, 7);
    SplitBits(b, 7);
    LowBitsBelow(b, 7);
    DivModUnique(b, 128, HighBits(b, 7), LowBits(b, 7));
  }
}
