/** Splitting a number of seconds into days, hours, minutes and seconds. */
module Durations {

  const SecondsPerMinute: nat := 60
  const SecondsPerHour: nat := 3600
  const SecondsPerDay: nat := 86400

  /** A duration written as days, hours, minutes and seconds. */
  datatype Dhms = Dhms(days: nat, hours: nat, minutes: nat, seconds: nat)

  /** Hours, minutes and seconds below their carry-over bounds. */
  predicate Normal(x: Dhms) {
    x.hours < 24 && x.minutes < 60 && x.seconds < 60
  }

  /** The number of seconds a duration stands for. */
  function ToSeconds(x: Dhms): nat {
    x.days * SecondsPerDay + x.hours * SecondsPerHour + x.minutes * SecondsPerMinute + x.seconds
  }

  /** Floor quotient and remainder, as Python's divmod gives them for non-negative operands. */
  function DivMod(a: nat, b: nat): (r: (nat, nat))
    requires b > 0
    ensures r.0 * b + r.1 == a && r.1 < b
  {
    (a / b, a % b)
  }

  /** The cascade seconds -> minutes -> hours -> days applied to a total number of seconds. */
  function Decompose(total: nat): (r: Dhms)
    ensures Normal(r)
    ensures ToSeconds(r) == total
  {
    var (m, s) := DivMod(total, 60);
    var (h, m') := DivMod(m, 60);
    var (d, h') := DivMod(h, 24);
    assert total == ((d * 24 + h') * 60 + m') * 60 + s;
    Dhms(d, h', m', s)
  }

  /** Two normal durations for the same number of seconds are the same duration. */
  lemma NormalUnique(x: Dhms, y: Dhms)
    requires Normal(x) && Normal(y)
    requires ToSeconds(x) == ToSeconds(y)
    ensures x == y
  {
    var mx, my := x.days * 1440 + x.hours * 60 + x.minutes, y.days * 1440 + y.hours * 60 + y.minutes;
    assert mx * 60 + x.seconds == my * 60 + y.seconds;
    assert mx == my && x.seconds == y.seconds;
    var hx, hy := x.days * 24 + x.hours, y.days * 24 + y.hours;
    assert hx * 60 + x.minutes == hy * 60 + y.minutes;
  }

  /** Decomposing the seconds of a normal duration gives that duration back. */
  lemma DecomposeToSeconds(x: Dhms)
    requires Normal(x)
    ensures Decompose(ToSeconds(x)) == x
  {
    NormalUnique(Decompose(ToSeconds(x)), x);
  }

  /** A mean duration written as whole minutes and the seconds left over. */
  datatype MinSec = MinSec(minutes: nat, seconds: real)

  /**
   * The mean of `count` trips totalling `total` seconds, split as divmod(mean, 60):
   * whole minutes and a remainder of seconds below 60.
   */
  function MeanSplit(total: nat, count: nat): (r: MinSec)
    requires count > 0
    ensures r.minutes as real * 60.0 + r.seconds == total as real / count as real
    ensures 0.0 <= r.seconds < 60.0
  {
    var (m, rest) := DivMod(total, 60 * count);
    MeanSplitFacts(total, count, m, rest);
    MinSec(m, rest as real / count as real)
  }

  /** The real-number facts behind `MeanSplit`. */
  lemma MeanSplitFacts(total: nat, count: nat, m: nat, rest: nat)
    requires count > 0
    requires m * (60 * count) + rest == total && rest < 60 * count
    ensures m as real * 60.0 + rest as real / count as real == total as real / count as real
    ensures 0.0 <= rest as real / count as real < 60.0
  {
    var mc := m * count;
    assert mc * 60 + rest == total;
    assert (mc as real) == m as real * count as real;
    assert total as real == mc as real * 60.0 + rest as real;
    RealSplit(total as real, count as real, m as real, rest as real);
  }

  /** Dividing `m * 60 * c + rest` by `c` for a remainder below `60 * c`. */
  lemma RealSplit(t: real, c: real, m: real, rest: real)
    requires c > 0.0 && 0.0 <= rest < 60.0 * c
    requires t == m * c * 60.0 + rest
    ensures m * 60.0 + rest / c == t / c
    ensures 0.0 <= rest / c < 60.0
  {
  }

  /** The minutes of the split are the whole number of minutes in the mean. */
  lemma MeanSplitMinutesAreFloor(total: nat, count: nat)
    requires count > 0
    ensures MeanSplit(total, count).minutes == total / (60 * count)
  {
  }
}
