/** The effective-time panel: the `HH:MM:SS` duration formatter used for both
    the accumulated and the pending time, and the enabled state of its
    Add and Clear buttons. */
module EffectiveTime {
  import opened Decimal
  import opened Duration

  datatype Option<T> = None | Some(value: T)

  /** `formatTime(seconds)`: hours, minutes and seconds each padded to two
      digits and joined by ':'. Hours are not capped, so they may take more
      than two digits. */
  function FormatTime(seconds: nat): (r: string)
    ensures 8 <= |r|
    ensures seconds < 360000 <==> |r| == 8
  {
    var t := FromSeconds(seconds);
    FromSecondsHoursBelow100(seconds);
    Pad2(t.hours) + ":" + Pad2(t.minutes) + ":" + Pad2(t.seconds)
  }

  /** `s.split(sep)`: the maximal separator-free pieces, empty ones included. */
  function Split(s: string, sep: char): (parts: seq<string>)
    ensures 1 <= |parts|
  {
    if s == [] then [[]]
    else
      var rest := Split(s[1..], sep);
      if s[0] == sep then [[]] + rest else [[s[0]] + rest[0]] + rest[1..]
  }

  /** Reads an `H:M:S` text back into seconds; any other shape is rejected. */
  function ParseTime(text: string): Option<nat> {
    var parts := Split(text, ':');
    if |parts| == 3 && AllDigits(parts[0]) && AllDigits(parts[1]) && AllDigits(parts[2])
    then Some(Parse(parts[0]) * 3600 + Parse(parts[1]) * 60 + Parse(parts[2]))
    else None
  }

  lemma {:induction false} SplitWithoutSeparator(a: string, sep: char)
    requires sep !in a
    ensures Split(a, sep) == [a]
  {
    if a != [] {
      SplitWithoutSeparator(a[1..], sep);
      assert [a[0]] + a[1..] == a;
    }
  }

  lemma {:induction false} SplitAtSeparator(a: string, sep: char, b: string)
    requires sep !in a
    ensures Split(a + [sep] + b, sep) == [a] + Split(b, sep)
  {
    var s := a + [sep] + b;
    if a == [] {
      assert s[1..] == b;
    } else {
      assert s[1..] == a[1..] + [sep] + b;
      SplitAtSeparator(a[1..], sep, b);
      assert [a[0]] + a[1..] == a;
    }
  }

  lemma PadNoColon(n: nat)
    ensures ':' !in Pad2(n)
  {
    Pad2Reads(n);
  }

  /** Three colon-free fields joined by ':' split back into those fields. */
  lemma SplitThree(h: string, m: string, s: string)
    requires ':' !in h && ':' !in m && ':' !in s
    ensures Split(h + ":" + m + ":" + s, ':') == [h, m, s]
  {
    assert h + ":" + m + ":" + s == h + [':'] + (m + [':'] + s);
    SplitAtSeparator(h, ':', m + [':'] + s);
    SplitAtSeparator(m, ':', s);
    SplitWithoutSeparator(s, ':');
  }

  /** The text is three colon-separated fields, each the two-digit-or-wider
      zero-padded decimal of the hours, minutes (0..59) and seconds (0..59) of
      the input. */
  lemma FormatTimeFields(seconds: nat)
    ensures var t := FromSeconds(seconds);
      var parts := Split(FormatTime(seconds), ':');
      |parts| == 3 &&
      t.minutes < 60 && t.seconds < 60 &&
      2 <= |parts[0]| && 2 <= |parts[1]| && 2 <= |parts[2]| &&
      AllDigits(parts[0]) && AllDigits(parts[1]) && AllDigits(parts[2]) &&
      Parse(parts[0]) == t.hours && Parse(parts[1]) == t.minutes && Parse(parts[2]) == t.seconds
  {
    var t := FromSeconds(seconds);
    var h, m, s := Pad2(t.hours), Pad2(t.minutes), Pad2(t.seconds);
    var parts := Split(FormatTime(seconds), ':');
    assert parts == [h, m, s] by {
      assert FormatTime(seconds) == h + ":" + m + ":" + s;
      PadNoColon(t.hours);
      PadNoColon(t.minutes);
      PadNoColon(t.seconds);
      SplitThree(h, m, s);
    }
    Pad2Reads(t.hours);
    Pad2Reads(t.minutes);
    Pad2Reads(t.seconds);
  }

  /** Parsing the fields back recovers the input. */
  lemma FormatTimeRoundTrip(seconds: nat)
    ensures ParseTime(FormatTime(seconds)) == Some(seconds)
  {
    FormatTimeFields(seconds);
  }

  /** Distinct durations are displayed differently. */
  lemma FormatTimeInjective(a: nat, b: nat)
    requires FormatTime(a) == FormatTime(b)
    ensures a == b
  {
    FormatTimeRoundTrip(a);
    FormatTimeRoundTrip(b);
  }

  /** Below 100 hours the text is exactly `DD:DD:DD`. */
  lemma FormatTimeWidth(seconds: nat)
    requires seconds < 360000
    ensures var r := FormatTime(seconds);
      |r| == 8 && r[2] == ':' && r[5] == ':' &&
      forall i :: 0 <= i < 8 && i != 2 && i != 5 ==> IsDigit(r[i])
  {
    var t := FromSeconds(seconds);
    FromSecondsHoursBelow100(seconds);
    Pad2Reads(t.hours);
    Pad2Reads(t.minutes);
    Pad2Reads(t.seconds);
    JoinTwoDigitFields(Pad2(t.hours), Pad2(t.minutes), Pad2(t.seconds));
  }

  lemma JoinTwoDigitFields(h: string, m: string, s: string)
    requires |h| == |m| == |s| == 2
    requires AllDigits(h) && AllDigits(m) && AllDigits(s)
    ensures var r := h + ":" + m + ":" + s;
      r == [h[0], h[1], ':', m[0], m[1], ':', s[0], s[1]] &&
      |r| == 8 && r[2] == ':' && r[5] == ':' &&
      forall i :: 0 <= i < 8 && i != 2 && i != 5 ==> IsDigit(r[i])
  {
  }

  lemma FormatTimeOfZero()
    ensures FormatTime(0) == "00:00:00"
  {
    ZeroSplit();
    Pad2OfZero();
    ZeroFieldsJoined();
  }

  lemma ZeroFieldsJoined()
    ensures "00" + ":" + "00" + ":" + "00" == "00:00:00"
  {
  }

  lemma ZeroSplit()
    ensures FromSeconds(0) == Hms(0, 0, 0)
  {
    assert 0 / 3600 == 0 && 0 % 3600 == 0 && 0 / 60 == 0 && 0 % 60 == 0;
  }

  /** Both buttons are rendered with `disabled={pendingTime === 0}`. */
  function ButtonsEnabled(pendingTime: nat): (enabled: bool)
    ensures enabled <==> 0 < pendingTime
  {
    pendingTime != 0
  }
}
