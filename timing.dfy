// Exact.cpp, main: the elapsed milliseconds split into minutes, seconds and
// milliseconds with C++ integer division, which truncates toward zero.

module Timing {
  /** C++ `a / b` for b > 0: the quotient truncated toward zero. */
  function CDiv(a: int, b: int): int
    requires b > 0
  {
    if a >= 0 then a / b else -((-a) / b)
  }

  /** C++ `a % b` for b > 0: what is left after CDiv, carrying the sign of a. */
  function CMod(a: int, b: int): (r: int)
    requires b > 0
    ensures -b < r < b
    ensures a >= 0 ==> r >= 0
    ensures a <= 0 ==> r <= 0
  {
    a - b * CDiv(a, b)
  }

  /** A multiple of b > 0 strictly between -b and b is zero. */
  lemma ZeroFactor(x: int, b: int)
    requires b > 0 && -b < x * b < b
    ensures x == 0
  {
  }

  /**
   * Truncating division is the only split a == q * b + r whose remainder
   * is smaller than b in size and does not differ in sign from a.
   */
  lemma TruncUnique(a: int, b: int, q: int, r: int)
    requires b > 0 && a == q * b + r && -b < r < b
    requires a >= 0 ==> r >= 0
    requires a <= 0 ==> r <= 0
    ensures q == CDiv(a, b) && r == CMod(a, b)
  {
    var q0, r0 := CDiv(a, b), CMod(a, b);
    assert (q - q0) * b == r0 - r;
    ZeroFactor(q - q0, b);
  }

  /** The clock reading printed after a run: minutes, seconds, milliseconds. */
  datatype Clock = Clock(minutes: int, seconds: int, millis: int)

  /** The three lines of main that split ms. */
  function TimeSplit(ms: int): Clock {
    Clock(CDiv(ms, 60000), CDiv(CMod(ms, 60000), 1000), CMod(ms, 1000))
  }

  /** The three fields add back up to ms, whatever its sign. */
  lemma TimeSplitTotal(ms: int)
    ensures var c := TimeSplit(ms); c.minutes * 60000 + c.seconds * 1000 + c.millis == ms
  {
    var q, r := CDiv(ms, 60000), CMod(ms, 60000);
    var q', r' := CDiv(r, 1000), CMod(r, 1000);
    assert ms == (60 * q + q') * 1000 + r';
    TruncUnique(ms, 1000, 60 * q + q', r');
  }

  /** For a non-negative duration, a clock reading: seconds below 60 and milliseconds below 1000. */
  lemma TimeSplitBounds(ms: int)
    requires ms >= 0
    ensures var c := TimeSplit(ms); c.minutes >= 0 && 0 <= c.seconds < 60 && 0 <= c.millis < 1000
  {
    var r := CMod(ms, 60000);
    assert 0 <= r < 60000;
    assert CDiv(r, 1000) == r / 1000;
  }

  /** The split is the only clock reading with those bounds that adds up to ms. */
  lemma TimeSplitUnique(ms: int, c: Clock)
    requires c.minutes >= 0 && 0 <= c.seconds < 60 && 0 <= c.millis < 1000
    requires c.minutes * 60000 + c.seconds * 1000 + c.millis == ms
    ensures TimeSplit(ms) == c
  {
    TruncUnique(ms, 60000, c.minutes, c.seconds * 1000 + c.millis);
    TruncUnique(ms, 1000, 60 * c.minutes + c.seconds, c.millis);
    TruncUnique(c.seconds * 1000 + c.millis, 1000, c.seconds, c.millis);
  }
}
