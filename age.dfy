/** `formatAge`: a coarse label for how long ago something happened
    (internal/refinery/manager.go, formatAge). Durations are whole seconds. */
module Age {
  import opened Text

  const Minute := 60
  const Hour := 60 * Minute
  const Day := 24 * Hour

  /** The unit of the bucket `d` falls in, with the letter that names it. */
  function Bucket(d: int): (int, char)
  {
    if d < Minute then (1, 's')
    else if d < Hour then (Minute, 'm')
    else if d < Day then (Hour, 'h')
    else (Day, 'd')
  }

  /** The label for an elapsed duration `d`: seconds under a minute, minutes
      under an hour, hours under a day, days otherwise, each count truncated.
      A negative `d` (a time in the future) falls in the seconds bucket. */
  function FormatAge(d: int): (shown: string)
    ensures |shown| >= 6 && shown[|shown| - 5] == Bucket(d).1
  {
    if d < Minute then IntToDecimal(d) + "s ago"
    else if d < Hour then IntToDecimal(d / Minute) + "m ago"
    else if d < Day then IntToDecimal(d / Hour) + "h ago"
    else IntToDecimal(d / Day) + "d ago"
  }

  /** The one integer `q` whose multiples of `u` bracket `d` is `d / u`. */
  lemma FloorDivUnique(d: int, u: int, q: int)
    requires u > 0 && q * u <= d < q * u + u
    ensures d / u == q
  {
    var r := d / u;
    assert r * u <= d < r * u + u;
    if r > q {
      MulMonotone(q + 1, r, u);
    } else if r < q {
      MulMonotone(r + 1, q, u);
    }
  }

  lemma MulMonotone(a: int, b: int, u: int)
    requires a <= b && u > 0
    ensures a * u <= b * u
  {
    assert b * u - a * u == (b - a) * u;
  }

  /** The label states the count of whole units of `d`'s bucket: the `q` with
      `q * unit <= d < (q + 1) * unit`. Past the seconds bucket the count is
      never zero and never reaches the next bucket's size. */
  lemma FormatAgeTruncates(d: int, q: int)
    requires q * Bucket(d).0 <= d < q * Bucket(d).0 + Bucket(d).0
    ensures FormatAge(d) == IntToDecimal(q) + [Bucket(d).1] + " ago"
    ensures Bucket(d).1 == 'm' ==> 1 <= q < 60
    ensures Bucket(d).1 == 'h' ==> 1 <= q < 24
    ensures Bucket(d).1 == 'd' ==> 1 <= q
  {
    var (u, letter) := Bucket(d);
    assert q * u <= d < q * u + u;
    if d < Minute {
      assert u == 1 && letter == 's';
      assert q == d;
    } else if d < Hour {
      assert u == 60 && letter == 'm';
      assert q * 60 <= d < q * 60 + 60;
      FloorDivUnique(d, 60, q);
    } else if d < Day {
      assert u == 3600 && letter == 'h';
      assert q * 3600 <= d < q * 3600 + 3600;
      FloorDivUnique(d, 3600, q);
    } else {
      assert u == 86400 && letter == 'd';
      assert q * 86400 <= d < q * 86400 + 86400;
      FloorDivUnique(d, 86400, q);
    }
  }

  /** Under a minute, the seconds are shown. */
  lemma FormatAgeSecondsExample()
    ensures FormatAge(45) == "45s ago"
  {
    assert NatToDecimal(4) == "4";
    assert NatToDecimal(45) == NatToDecimal(4) + [DigitChar(5)];
    assert IntToDecimal(45) == "45";
  }

  /** Ninety minutes are shown as one hour: the division truncates. */
  lemma FormatAgeHoursExample()
    ensures FormatAge(90 * Minute) == "1h ago"
  {
    assert 90 * Minute == 5400 && Minute <= 5400 && Hour <= 5400 < Day;
    assert 5400 / Hour == 1;
    assert IntToDecimal(1) == "1";
  }

  /** Three days are shown as days. */
  lemma FormatAgeDaysExample()
    ensures FormatAge(3 * Day) == "3d ago"
  {
    assert 3 * Day == 259200 && Day <= 259200;
    assert 259200 / Day == 3;
    assert IntToDecimal(3) == "3";
  }

  /** A creation time in the future gives a negative count of seconds. */
  lemma FormatAgeFutureExample()
    ensures FormatAge(-5) == "-5s ago"
  {
    assert IntToDecimal(-5) == "-" + NatToDecimal(5);
    assert NatToDecimal(5) == "5";
  }
}
