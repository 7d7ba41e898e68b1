/** The accuracy of a play, computed from its hit counts as osu! weighs them:
    a 300 counts fully, a 100 a third, a 50 a sixth, a miss nothing. */
module Accuracy {
  import opened Base

  /** clamp: `min(max(value, low), high)`. */
  function Clamp(value: real, low: real, high: real): (r: real)
    ensures low <= high ==> low <= r <= high
    ensures low <= value <= high ==> r == value
    ensures value < low ==> r == (if low <= high then low else high)
    ensures high < value ==> r == high
  {
    var atLeast := if value >= low then value else low;
    if atLeast <= high then atLeast else high
  }

  /** The number of hit objects a play judged. */
  function TotalHits(c300: int, c100: int, c50: int, cMiss: int): (r: int)
  {
    c300 + c100 + c50 + cMiss
  }

  /** The weighted hits over the best possible score, before clamping. */
  function RawAccuracy(c300: int, c100: int, c50: int, cMiss: int): (r: real)
    requires TotalHits(c300, c100, c50, cMiss) != 0
  {
    (c50 * 50 + c100 * 100 + c300 * 300) as real / (TotalHits(c300, c100, c50, cMiss) * 300) as real
  }

  /** calcAcc: the raw accuracy clamped to [0, 1]. When no hit was judged
      the float division by zero raises ZeroDivisionError. */
  function CalcAcc(c300: int, c100: int, c50: int, cMiss: int): (r: Result<real>)
    ensures r.Failure? <==> TotalHits(c300, c100, c50, cMiss) == 0
    ensures r.Failure? ==> r.error == ZeroDivisionError
    ensures r.Success? ==> 0.0 <= r.value <= 1.0
  {
    if TotalHits(c300, c100, c50, cMiss) == 0 then Failure(ZeroDivisionError)
    else Success(Clamp(RawAccuracy(c300, c100, c50, cMiss), 0.0, 1.0))
  }

  lemma DivBounds(num: real, den: real)
    requires 0.0 < den && 0.0 <= num <= den
    ensures 0.0 <= num / den <= 1.0
  {
  }

  /** Counts read from a replay are never negative, so for any play with a
      judged hit the clamp changes nothing: the accuracy is the weighted sum
      of the hits over 300 per hit. */
  lemma AccuracyUnclamped(c300: nat, c100: nat, c50: nat, cMiss: nat)
    requires TotalHits(c300, c100, c50, cMiss) > 0
    ensures CalcAcc(c300, c100, c50, cMiss)
      == Success((c50 * 50 + c100 * 100 + c300 * 300) as real / (TotalHits(c300, c100, c50, cMiss) * 300) as real)
  {
    var num := c50 * 50 + c100 * 100 + c300 * 300;
    var den := TotalHits(c300, c100, c50, cMiss) * 300;
    assert num <= den;
    DivBounds(num as real, den as real);
  }

  /** The accuracy is 1 exactly when every judged hit is a 300. */
  lemma AllGreat(c300: nat, c100: nat, c50: nat, cMiss: nat)
    requires TotalHits(c300, c100, c50, cMiss) > 0
    ensures CalcAcc(c300, c100, c50, cMiss) == Success(1.0) <==> c100 == 0 && c50 == 0 && cMiss == 0
  {
    var num := c50 * 50 + c100 * 100 + c300 * 300;
    var den := TotalHits(c300, c100, c50, cMiss) * 300;
    AccuracyUnclamped(c300, c100, c50, cMiss);
    DivIsOne(num as real, den as real);
    assert den - num == c50 * 250 + c100 * 200 + cMiss * 300;
  }

  lemma DivIsOne(num: real, den: real)
    requires den > 0.0
    ensures num / den == 1.0 <==> num == den
  {
    if num / den == 1.0 {
      assert num == (num / den) * den;
    }
  }

  /** The accuracy is 0 exactly when every judged hit is a miss. */
  lemma AllMisses(c300: nat, c100: nat, c50: nat, cMiss: nat)
    requires TotalHits(c300, c100, c50, cMiss) > 0
    ensures CalcAcc(c300, c100, c50, cMiss) == Success(0.0) <==> c300 == 0 && c100 == 0 && c50 == 0
  {
    var num := c50 * 50 + c100 * 100 + c300 * 300;
    var den := TotalHits(c300, c100, c50, cMiss) * 300;
    AccuracyUnclamped(c300, c100, c50, cMiss);
    DivIsZero(num as real, den as real);
  }

  lemma DivIsZero(num: real, den: real)
    requires den > 0.0
    ensures num / den == 0.0 <==> num == 0.0
  {
    if num / den == 0.0 {
      assert num == (num / den) * den;
    }
  }

  /** Turning one judgement into a better one (a miss into a 50, a 50 into a
      100, a 100 into a 300) never lowers the accuracy. */
  lemma BetterHitNoWorse(c300: nat, c100: nat, c50: nat, cMiss: nat)
    requires TotalHits(c300, c100, c50, cMiss) > 0
    ensures cMiss > 0 ==> CalcAcc(c300, c100, c50 + 1, cMiss - 1).value >= CalcAcc(c300, c100, c50, cMiss).value
    ensures c50 > 0 ==> CalcAcc(c300, c100 + 1, c50 - 1, cMiss).value >= CalcAcc(c300, c100, c50, cMiss).value
    ensures c100 > 0 ==> CalcAcc(c300 + 1, c100 - 1, c50, cMiss).value >= CalcAcc(c300, c100, c50, cMiss).value
  {
    var den := (TotalHits(c300, c100, c50, cMiss) * 300) as real;
    var num := (c50 * 50 + c100 * 100 + c300 * 300) as real;
    AccuracyUnclamped(c300, c100, c50, cMiss);
    if cMiss > 0 {
      AccuracyUnclamped(c300, c100, c50 + 1, cMiss - 1);
      DivMono(num, num + 50.0, den);
    }
    if c50 > 0 {
      AccuracyUnclamped(c300, c100 + 1, c50 - 1, cMiss);
      DivMono(num, num + 50.0, den);
    }
    if c100 > 0 {
      AccuracyUnclamped(c300 + 1, c100 - 1, c50, cMiss);
      DivMono(num, num + 200.0, den);
    }
  }

  lemma DivMono(a: real, b: real, den: real)
    requires 0.0 < den && a <= b
    ensures a / den <= b / den
  {
  }
}
