/**
 The score aggregator `calc_score`, modelled with Python's
 actual semantics rather than the buckets its layout suggests.

 In Python `&` binds tighter than the comparison operators, so a guard written
 `n < 10 & n > 5` parses as the chained comparison `n < (10 & n) > 5`, that is
 `n < (10 & n) and (10 & n) > 5`. Since `10 & n <= n` for every `n >= 0`, no
 such guard ever holds and every middle disfluency and gaze bucket is
 unreachable. The blink buckets for 8, 9 and 10 do apply, but the blink buckets
 have a hole at 7. The weights are exactly 33/100 each (they sum to
 99/100); the real arithmetic here is exact.
 */
module Scoring {

  /** Python's `a & b` on non-negative integers, bit by bit from the least significant end:
      the lowest bit of the result is set exactly when it is set in both operands. */
  function BitAnd(a: nat, b: nat): (r: nat)
    ensures r % 2 == 1 <==> a % 2 == 1 && b % 2 == 1
    decreases a
  {
    if a == 0 || b == 0 then 0
    else 2 * BitAnd(a / 2, b / 2) + (if a % 2 == 1 && b % 2 == 1 then 1 else 0)
  }

  /** The masks the guards apply, on sample counts: `10 & 7 == 2`, `12 & 10 == 8`,
      `20 & 17 == 16`, `30 & 25 == 24`, and a number masked by itself is itself. */
  lemma BitAndExamples()
    ensures BitAnd(10, 7) == 2
    ensures BitAnd(12, 10) == 8
    ensures BitAnd(20, 17) == 16
    ensures BitAnd(30, 25) == 24
    ensures BitAnd(15, 15) == 15
  {
  }

  /** `a & b` never exceeds `b`. */
  lemma {:induction false} BitAndAtMostRight(a: nat, b: nat)
    ensures BitAnd(a, b) <= b
    decreases a
  {
    if a != 0 && b != 0 {
      BitAndAtMostRight(a / 2, b / 2);
    }
  }

  /** `a & b` never exceeds `a`. */
  lemma {:induction false} BitAndAtMostLeft(a: nat, b: nat)
    ensures BitAnd(a, b) <= a
    decreases a
  {
    if a != 0 && b != 0 {
      BitAndAtMostLeft(a / 2, b / 2);
    }
  }

  /** `&` is commutative. */
  lemma {:induction false} BitAndCommutes(a: nat, b: nat)
    ensures BitAnd(a, b) == BitAnd(b, a)
    decreases a
  {
    if a != 0 && b != 0 {
      BitAndCommutes(a / 2, b / 2);
    }
  }

  /** Masking a number with itself gives it back. */
  lemma {:induction false} BitAndSelf(a: nat)
    ensures BitAnd(a, a) == a
    decreases a
  {
    if a != 0 {
      BitAndSelf(a / 2);
    }
  }

  /** Python's guard `n < hi & n > lo`, parsed as the chain `n < (hi & n) and (hi & n) > lo`.
      As `hi & n <= hi`, it could only hold inside the written upper bound. */
  function MaskedChain(n: nat, hi: nat, lo: nat): (holds: bool)
    ensures holds ==> n < hi && lo < hi
  {
    BitAndAtMostLeft(hi, n);
    var masked := BitAnd(hi, n);
    n < masked && masked > lo
  }

  /** Since also `hi & n <= n`, no masked-chain guard holds for a non-negative count,
      whatever its bounds. */
  lemma MaskedChainNeverHolds(n: nat, hi: nat, lo: nat)
    ensures !MaskedChain(n, hi, lo)
  {
    BitAndAtMostRight(hi, n);
  }

  /** The five sub-score values a bucket function can produce. */
  predicate IsBucket(s: nat)
  {
    s == 0 || s == 125 || s == 250 || s == 375 || s == 500
  }

  /** The disfluency branch of `calc_score`, guards as Python evaluates them. */
  function DisfluencyScore(disCount: int): (s: nat)
    ensures IsBucket(s)
  {
    if disCount < 5 then 500
    else if MaskedChain(disCount, 10, 5) then 375
    else if MaskedChain(disCount, 15, 10) then 250
    else if MaskedChain(disCount, 20, 15) then 125
    else 0
  }

  /** The gaze branch of `calc_score`, guards as Python evaluates them. */
  function GazeScore(gazeCount: int): (s: nat)
    ensures IsBucket(s)
  {
    if gazeCount < 10 then 500
    else if MaskedChain(gazeCount, 20, 10) then 375
    else if MaskedChain(gazeCount, 30, 20) then 250
    else if MaskedChain(gazeCount, 40, 30) then 125
    else 0
  }

  /** The blink branch of `calc_score`: `< 7`, then exactly 8, 9, 10; 7 falls through to 0. */
  function BlinkScore(blinkCount: int): (s: nat)
    ensures IsBucket(s)
    ensures s == 500 <==> blinkCount < 7
    ensures s == 0 <==> blinkCount == 7 || blinkCount > 10
    ensures s == 375 <==> blinkCount == 8
    ensures s == 250 <==> blinkCount == 9
    ensures s == 125 <==> blinkCount == 10
  {
    if blinkCount < 7 then 500
    else if blinkCount == 8 then 375
    else if blinkCount == 9 then 250
    else if blinkCount == 10 then 125
    else 0
  }

  /** The disfluency sub-score is a two-valued step: 500 below 5, 0 from 5 on. */
  lemma DisfluencyScoreIsStep(disCount: int)
    ensures DisfluencyScore(disCount) == if disCount < 5 then 500 else 0
  {
    if disCount >= 5 {
      MaskedChainNeverHolds(disCount, 10, 5);
      MaskedChainNeverHolds(disCount, 15, 10);
      MaskedChainNeverHolds(disCount, 20, 15);
    }
  }

  /** The gaze sub-score is a two-valued step: 500 below 10, 0 from 10 on. */
  lemma GazeScoreIsStep(gazeCount: int)
    ensures GazeScore(gazeCount) == if gazeCount < 10 then 500 else 0
  {
    if gazeCount >= 10 {
      MaskedChainNeverHolds(gazeCount, 20, 10);
      MaskedChainNeverHolds(gazeCount, 30, 20);
      MaskedChainNeverHolds(gazeCount, 40, 30);
    }
  }

  /** `calc_score(dis_count, blink_count, gaze_count)`: the three sub-scores weighted 33/100 each. */
  function CalcScore(disCount: int, blinkCount: int, gazeCount: int): (score: real)
    ensures 0.0 <= score <= 495.0
  {
    (33.0 / 100.0) * (DisfluencyScore(disCount) as real)
      + (33.0 / 100.0) * (BlinkScore(blinkCount) as real)
      + (33.0 / 100.0) * (GazeScore(gazeCount) as real)
  }

  /** The composite in closed form: the middle disfluency and gaze buckets never contribute. */
  lemma CalcScoreClosedForm(disCount: int, blinkCount: int, gazeCount: int)
    ensures CalcScore(disCount, blinkCount, gazeCount)
            == (33.0 / 100.0) * (((if disCount < 5 then 500 else 0)
                                  + BlinkScore(blinkCount)
                                  + (if gazeCount < 10 then 500 else 0)) as real)
  {
    DisfluencyScoreIsStep(disCount);
    GazeScoreIsStep(gazeCount);
  }

  /** The top composite 495 (not 500: the weights sum to 99/100) is reached exactly when
      all three counts fall in their first bucket. */
  lemma CalcScoreTop(disCount: int, blinkCount: int, gazeCount: int)
    ensures CalcScore(disCount, blinkCount, gazeCount) == 495.0
            <==> disCount < 5 && blinkCount < 7 && gazeCount < 10
  {
    CalcScoreClosedForm(disCount, blinkCount, gazeCount);
  }

  /** Counts the written guards seem meant to reward score 0: 7 disfluencies and 15 gaze
      aversions (middle buckets that cannot be reached), and 7 blinks (not a middle
      bucket, but the hole between `< 7` and `== 8`). */
  lemma UnrewardedCounts()
    ensures DisfluencyScore(7) == 0
    ensures GazeScore(15) == 0
    ensures BlinkScore(7) == 0
    ensures CalcScore(7, 7, 15) == 0.0
  {
    DisfluencyScoreIsStep(7);
    GazeScoreIsStep(15);
  }
}
