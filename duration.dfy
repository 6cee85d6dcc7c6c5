/** An `{hours, minutes, seconds}` triple and its conversion to and from a
    number of seconds, as both the timer and the effective-time display use it. */
module Duration {

  datatype Hms = Hms(hours: nat, minutes: nat, seconds: nat)

  /** `hours * 3600 + minutes * 60 + seconds`. */
  function TotalSeconds(t: Hms): (total: nat)
    ensures total == 0 <==> t == Hms(0, 0, 0)
  {
    t.hours * 3600 + t.minutes * 60 + t.seconds
  }

  /** A triple whose minutes and seconds are both below 60. */
  predicate Normalized(t: Hms) {
    t.minutes < 60 && t.seconds < 60
  }

  /** `floor(c / 3600)`, `floor((c % 3600) / 60)` and `c % 60`. */
  function FromSeconds(c: nat): (t: Hms)
    ensures TotalSeconds(t) == c
    ensures Normalized(t)
  {
    Hms(c / 3600, (c % 3600) / 60, c % 60)
  }

  /** A normalized triple is the only split of its own total. */
  lemma FromSecondsUnique(t: Hms)
    requires Normalized(t)
    ensures FromSeconds(TotalSeconds(t)) == t
  {
    var c := TotalSeconds(t);
    var r := t.minutes * 60 + t.seconds;
    DivModUnique(c, 3600, t.hours, r);
    DivModUnique(r, 60, t.minutes, t.seconds);
    DivModUnique(c, 60, t.hours * 60 + t.minutes, t.seconds);
  }

  /** Division with remainder has one answer. */
  lemma DivModUnique(c: nat, d: nat, q: nat, r: nat)
    requires 0 < d && r < d && c == q * d + r
    ensures c / d == q && c % d == r
  {
    var q', r' := c / d, c % d;
    assert c == q' * d + r' && 0 <= r' < d;
    assert (q - q') * d == r' - r;
    if q > q' {
      MulAtLeast(q - q', d);
    } else if q < q' {
      MulAtLeast(q' - q, d);
      assert (q' - q) * d == r - r';
    }
  }

  lemma MulAtLeast(k: int, d: int)
    requires 1 <= k && 0 < d
    ensures d <= k * d
  {
    assert k * d == d + (k - 1) * d;
  }

  /** The hours field stays within two decimal digits exactly below 100 hours. */
  lemma FromSecondsHoursBelow100(c: nat)
    ensures FromSeconds(c).hours < 100 <==> c < 360000
  {
  }
}
