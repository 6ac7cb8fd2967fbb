/** Durations in whole microseconds, as Python's timedelta keeps them. */
module Durations {
  const SECOND: nat := 1_000_000
  const MINUTE: nat := 60_000_000
  const HOUR: nat := 3_600_000_000
  const DAY: nat := 86_400_000_000

  function Max(x: int, y: int): int { if x < y then y else x }

  function Min(x: int, y: int): int { if x < y then x else y }

  /** The whole second an instant falls in: what a PCE query says of a time. */
  function WholeSecond(t: int): int { t - t % SECOND }

  /** A duration divided by two: to the nearest microsecond, a half to the even one. */
  function HalfOf(n: nat): (h: nat)
    ensures n >= 2 ==> 0 < h < n && h - 1 <= (n - 1) / 2 && n - h - 1 <= (n - 1) / 2
  {
    var q := n / 2;
    if n % 2 == 1 && q % 2 == 1 then q + 1 else q
  }
}
