/// The parts of the JVM platform that the solver and the generators rely on:
/// 32-bit `Int` arithmetic, the exceptions the code can throw, and
/// `java.util.Random`, replaced by a caller-supplied sequence of draws.
module Jvm {
  /** `Int.MAX_VALUE`: the initial distance of a node and the "no path found" answer */
  const INT_MAX: int := 0x7fff_ffff
  /** `Int.MIN_VALUE` */
  const INT_MIN: int := -0x8000_0000
  const TWO_32: int := 0x1_0000_0000

  /** `x` fits in a Kotlin `Int` */
  predicate IsInt(x: int) {
    INT_MIN <= x <= INT_MAX
  }

  /** The 32-bit two's-complement value that `x` is truncated to */
  function Wrap(x: int): (r: int)
    ensures IsInt(r)
    ensures (x - r) % TWO_32 == 0
  {
    (x - INT_MIN) % TWO_32 + INT_MIN
  }

  /** Kotlin's `a + b` on `Int`: the exact sum when it fits, wrapped around otherwise */
  function Add(a: int, b: int): (r: int)
    requires IsInt(a) && IsInt(b)
    ensures IsInt(r)
    ensures IsInt(a + b) ==> r == a + b
    ensures a + b > INT_MAX ==> r == a + b - TWO_32
    ensures a + b < INT_MIN ==> r == a + b + TWO_32
  {
    Wrap(a + b)
  }

  /** The exceptions the modelled code can raise */
  datatype Exception =
    | IllegalArgument   // IllegalArgumentException: a failed `require`, `nextInt` with a bound <= 0, a negative list size
    | IndexOutOfBounds  // IndexOutOfBoundsException from `ArrayList.removeAt`
    | OutOfDraws        // the model's finite random source ran dry; `java.util.Random` never does

  datatype Result<T> = Ok(value: T) | Err(error: Exception)

  /**
   * `java.util.Random`, replaced by the values it is going to hand out.
   * `NextInt(bound)` reduces the next draw into `[0, bound)`, so the caller can
   * make it return any value of that range.
   */
  class Random {
    var draws: seq<nat>

    constructor (draws: seq<nat>)
      ensures this.draws == draws
    {
      this.draws := draws;
    }

    /** `nextInt(bound)` */
    method NextInt(bound: int) returns (r: Result<int>)
      modifies this
      ensures bound <= 0 ==> r == Err(IllegalArgument) && draws == old(draws)
      ensures 0 < bound && old(draws) == [] ==> r == Err(OutOfDraws) && draws == old(draws)
      ensures 0 < bound && old(draws) != [] ==>
                r == Ok(old(draws)[0] % bound) && 0 <= r.value < bound && draws == old(draws)[1..]
    {
      if bound <= 0 {
        r := Err(IllegalArgument);
      } else if draws == [] {
        r := Err(OutOfDraws);
      } else {
        r := Ok(draws[0] % bound);
        draws := draws[1..];
      }
    }
  }
}
