/**
  The wall-clock reading `datetime.now()` supplies, and the text
  `strftime('%Y%m%d_%H%M%S')` makes of it for output file names.
  The clock itself is an input: nothing here reads the time.
*/
module Clock {
  import opened Wrappers
  import opened Decimal

  datatype DateTime = DateTime(year: int, month: int, day: int, hour: int, minute: int, second: int)

  /** The readings considered, with four-digit years: every reading `datetime.now()` can
      return in those years is one, but so are some impossible dates such as 31 February,
      since the day is not checked against the month. */
  predicate ValidTime(t: DateTime) {
    && 1000 <= t.year <= 9999
    && 1 <= t.month <= 12
    && 1 <= t.day <= 31
    && 0 <= t.hour < 24
    && 0 <= t.minute < 60
    && 0 <= t.second < 60
  }

  type Instant = t: DateTime | ValidTime(t) witness DateTime(2000, 1, 1, 0, 0, 0)

  /** `t.strftime('%Y%m%d_%H%M%S')`: fifteen characters, digits everywhere except the
      underscore at index 8. */
  function Stamp(t: Instant): (r: string)
    ensures |r| == 15 && r[8] == '_'
    ensures AllDigits(r[..8]) && AllDigits(r[9..])
  {
    var date := Padded(t.year, 4) + Padded(t.month, 2) + Padded(t.day, 2);
    var time := Padded(t.hour, 2) + Padded(t.minute, 2) + Padded(t.second, 2);
    assert (date + "_" + time)[..8] == date;
    assert (date + "_" + time)[9..] == time;
    date + "_" + time
  }

  /** Reads a `%Y%m%d_%H%M%S` text back into its six fields, or None when the text
      does not have that shape. */
  function ParseStamp(s: string): (r: Option<DateTime>)
    ensures r.Some? <==> |s| == 15 && s[8] == '_' && AllDigits(s[..8]) && AllDigits(s[9..])
  {
    if |s| == 15 && s[8] == '_' && AllDigits(s[..8]) && AllDigits(s[9..]) then
      assert AllDigits(s[..4]) && AllDigits(s[4..6]) && AllDigits(s[6..8]);
      assert AllDigits(s[9..11]) && AllDigits(s[11..13]) && AllDigits(s[13..15]);
      Some(DateTime(DecimalValue(s[..4]), DecimalValue(s[4..6]), DecimalValue(s[6..8]),
                    DecimalValue(s[9..11]), DecimalValue(s[11..13]), DecimalValue(s[13..15])))
    else None
  }

  /** The stamp loses nothing: reading it back gives the clock reading. */
  lemma StampRoundTrip(t: Instant)
    ensures ParseStamp(Stamp(t)) == Some(t)
  {
    var s := Stamp(t);
    StampFields(t);
    Pow10Widths();
    PaddedRoundTrip(t.year, 4);
    PaddedRoundTrip(t.month, 2);
    PaddedRoundTrip(t.day, 2);
    PaddedRoundTrip(t.hour, 2);
    PaddedRoundTrip(t.minute, 2);
    PaddedRoundTrip(t.second, 2);
    assert ParseStamp(s).Some?;
  }

  /** Where each field sits in the stamp. */
  lemma StampFields(t: Instant)
    ensures var s := Stamp(t);
      && s[..4] == Padded(t.year, 4) && s[4..6] == Padded(t.month, 2) && s[6..8] == Padded(t.day, 2)
      && s[9..11] == Padded(t.hour, 2) && s[11..13] == Padded(t.minute, 2) && s[13..15] == Padded(t.second, 2)
  {
    var s := Stamp(t);
    var date := Padded(t.year, 4) + Padded(t.month, 2) + Padded(t.day, 2);
    var time := Padded(t.hour, 2) + Padded(t.minute, 2) + Padded(t.second, 2);
    assert s == date + "_" + time;
    assert s[..8] == date && s[9..] == time;
    assert s[..4] == date[..4] && s[4..6] == date[4..6] && s[6..8] == date[6..8];
    assert s[9..11] == time[..2] && s[11..13] == time[2..4] && s[13..15] == time[4..];
  }

  lemma Pow10Widths()
    ensures Pow10(4) == 10000 && Pow10(2) == 100
  {
    assert Pow10(1) == 10;
    assert Pow10(2) == 100;
    assert Pow10(3) == 1000;
  }

  /** Two different readings never share a stamp. */
  lemma StampInjective(a: Instant, b: Instant)
    requires Stamp(a) == Stamp(b)
    ensures a == b
  {
    StampRoundTrip(a);
    StampRoundTrip(b);
  }
}
