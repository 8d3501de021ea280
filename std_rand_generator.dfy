/**
 * The `rand()`-based index generator (StdRandGenerator.h).  The value `rand()`
 * returns is a parameter: any non-negative integer.
 */
module StdRandGenerator {
  import opened Wrappers

  datatype StdRandGeneratorException = StdRandGeneratorException(message: string)

  function Abs(x: int): nat {
    if x < 0 then -x else x
  }

  /**
   * `generateIntInRange(minValue, maxValue)` as written: throws when the bounds are
   * reversed, and otherwise returns `rand() % maxValue + minValue`.  C++ `%` truncates
   * toward zero; on the non-negative `rand()` value that is Dafny's `%` as well.
   * `maxValue == 0` without the throw divides by zero, which C++ leaves undefined.
   */
  function GenerateIntInRange(minValue: int, maxValue: int, randValue: nat)
    : (r: Result<int, StdRandGeneratorException>)
    requires maxValue < minValue || maxValue != 0
    ensures r.Err? <==> maxValue < minValue
    ensures r.Ok? ==> minValue <= r.value < minValue + Abs(maxValue)
    ensures r.Ok? ==> (r.value - minValue) % Abs(maxValue) == randValue % Abs(maxValue)
  {
    if maxValue < minValue then
      Err(StdRandGeneratorException("minValue cannot exceed maxValue."))
    else
      Ok(randValue % maxValue + minValue)
  }

  /** Equal bounds are accepted: only reversed bounds throw. */
  lemma EqualBoundsAccepted(bound: int, randValue: nat)
    requires bound != 0
    ensures GenerateIntInRange(bound, bound, randValue).Ok?
  {
  }

  /** From 0, the only way the game calls it, the result is a valid index below `maxValue`. */
  lemma IndexFromZero(maxValue: int, randValue: nat)
    requires maxValue > 0
    ensures GenerateIntInRange(0, maxValue, randValue).Ok?
    ensures 0 <= GenerateIntInRange(0, maxValue, randValue).value < maxValue
  {
  }

  /**
   * As written, a call with a non-zero lower bound can return a value at or above
   * `maxValue`: the offset is added after taking the remainder by `maxValue` rather
   * than by the width of the range.
   */
  lemma OutOfRangeAsWritten()
    ensures GenerateIntInRange(2, 5, 4) == Ok(6)
  {
  }

  /**
   * The evidently intended generator: a value in the half-open range
   * [minValue, maxValue), with the same exception for reversed bounds.  An empty
   * range (equal bounds) has nothing to return, so the caller must not ask for one.
   */
  function GenerateIntInRangeCorrected(minValue: int, maxValue: int, randValue: nat)
    : (r: Result<int, StdRandGeneratorException>)
    requires maxValue != minValue
    ensures r.Err? <==> maxValue < minValue
    ensures r.Ok? ==> minValue <= r.value < maxValue
  {
    if maxValue < minValue then
      Err(StdRandGeneratorException("minValue cannot exceed maxValue."))
    else
      Ok(randValue % (maxValue - minValue) + minValue)
  }

  /** For the game's calls, which all start at 0, the corrected generator agrees with the original. */
  lemma CorrectedAgreesFromZero(maxValue: int, randValue: nat)
    requires maxValue > 0
    ensures GenerateIntInRangeCorrected(0, maxValue, randValue)
            == GenerateIntInRange(0, maxValue, randValue)
  {
  }
}
