/** The bounded random value generator of the magic-square engine and the
    entropy source it draws from.

    The operating system's cryptographic reader is replaced by an `Entropy`
    object that hands out a finite tape of draws, one per read.  A draw is
    either a sample (the raw value the reader produced) or a fault (the
    reader reported an error).  Only the range of a draw is modelled, not its
    distribution. */
module RandomValues {

  /** One read of the entropy source. */
  datatype Draw = Sample(u: nat) | Fault

  /** The ways a population step can fail.  `RandomSourceError` is the
      reader's own error; `EntropyExhausted` means the finite tape of the
      model ran out, which stands for a run that would need more draws. */
  datatype Error = RandomSourceError | EntropyExhausted

  datatype Result<T> = Ok(value: T) | Err(error: Error)

  /** b raised to the e-th power, exactly. */
  function Pow(b: int, e: nat): (p: int)
  {
    if e == 0 then 1 else b * Pow(b, e - 1)
  }

  /** What the generator makes of a base value: powers above one are
      applied, a power of one or less leaves the value as it is. */
  function Raise(v: int, power: int): (x: int)
  {
    if power > 1 then Pow(v, power) else v
  }

  /** x is a value the generator can return for these bounds and power. */
  ghost predicate Generable(x: int, lowerBound: int, upperBound: int, power: int)
  {
    exists v :: lowerBound <= v <= upperBound && x == Raise(v, power)
  }

  /** The number of values in the inclusive range [lowerBound, upperBound]. */
  function Width(lowerBound: int, upperBound: int): (w: int)
  {
    upperBound - lowerBound + 1
  }

  /** The reader's `Int(reader, max)`: a number in [0, max).  A max of one
      leaves nothing to choose, so the reader is not consulted and cannot
      fail; otherwise the draw is used, a fault being the reader's error and
      a sample being reduced below max. */
  function RandInt(max: int, d: Draw): (r: Result<int>)
    requires max >= 1
    ensures r.Ok? ==> 0 <= r.value < max
    ensures r.Err? <==> d.Fault? && max > 1
    ensures r.Err? ==> r.error == RandomSourceError
  {
    if max == 1 then Ok(0)
    else
      match d
      case Fault => Err(RandomSourceError)
      case Sample(u) => Ok(u % max)
  }

  /** Draws a value from [lowerBound, upperBound] using the draw `d`, then
      raises it to `power` when `power > 1`.  The reader is asked for a number
      below the range width (a non-positive width would make it panic, hence
      the precondition), which is then shifted up to the lower bound. */
  function GenerateRandomBigInt(lowerBound: int, upperBound: int, power: int, d: Draw): (r: Result<int>)
    requires lowerBound <= upperBound
    ensures r.Err? <==> d.Fault? && lowerBound < upperBound
    ensures r.Err? ==> r.error == RandomSourceError
    ensures r.Ok? ==> Generable(r.value, lowerBound, upperBound, power)
    ensures r.Ok? && power <= 1 ==> lowerBound <= r.value <= upperBound
    ensures lowerBound == upperBound ==> r == Ok(Raise(lowerBound, power))
  {
    var drawn := RandInt(Width(lowerBound, upperBound), d);
    if drawn.Err? then Err(drawn.error)
    else
      var randNum := drawn.value + lowerBound;
      var num := if power > 1 then Pow(randNum, power) else randNum;
      assert num == Raise(randNum, power);
      Ok(num)
  }

  /** Every value of the range is produced by some sample, namely its offset
      from the lower bound: the generator covers the whole range. */
  lemma GenerateCoversRange(lowerBound: int, upperBound: int, power: int, v: int)
    requires lowerBound <= v <= upperBound
    ensures GenerateRandomBigInt(lowerBound, upperBound, power, Sample(v - lowerBound)) == Ok(Raise(v, power))
  {
    assert (v - lowerBound) % Width(lowerBound, upperBound) == v - lowerBound;
  }

  /** The range width is upperBound - lowerBound + 1: the largest offset
      reaches upperBound itself, and the offset one further wraps around to
      lowerBound, so no value outside the range is ever reached. */
  lemma GenerateWidthExact(lowerBound: int, upperBound: int, power: int)
    requires lowerBound <= upperBound
    ensures GenerateRandomBigInt(lowerBound, upperBound, power, Sample(0)) == Ok(Raise(lowerBound, power))
    ensures GenerateRandomBigInt(lowerBound, upperBound, power, Sample(upperBound - lowerBound)) == Ok(Raise(upperBound, power))
    ensures GenerateRandomBigInt(lowerBound, upperBound, power, Sample(upperBound - lowerBound + 1)) == Ok(Raise(lowerBound, power))
  {
    var w := Width(lowerBound, upperBound);
    assert (w - 1) % w == w - 1;
    assert w % w == 0;
  }

  /** With power 2, the value drawn is squared exactly. */
  lemma GenerateSquares(lowerBound: int, upperBound: int, v: int)
    requires lowerBound <= v <= upperBound
    ensures GenerateRandomBigInt(lowerBound, upperBound, 2, Sample(v - lowerBound)) == Ok(v * v)
  {
    GenerateCoversRange(lowerBound, upperBound, 2, v);
    assert Pow(v, 2) == v * Pow(v, 1) == v * v;
  }

  /** The system's cryptographic reader, as a finite tape of draws consumed
      front to back. */
  class Entropy {
    var tape: seq<Draw>

    constructor (tape: seq<Draw>)
      ensures this.tape == tape
    {
      this.tape := tape;
    }

    /** Reads one draw; `None` once the tape is used up. */
    method Read() returns (d: Option<Draw>)
      modifies this
      ensures old(tape) == [] ==> d == None && tape == []
      ensures old(tape) != [] ==> d == Some(old(tape)[0]) && tape == old(tape)[1..]
    {
      if tape == [] {
        d := None;
      } else {
        d := Some(tape[0]);
        tape := tape[1..];
      }
    }
  }

  datatype Option<T> = None | Some(value: T)
}
