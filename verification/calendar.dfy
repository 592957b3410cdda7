/**
 * Local calendar time and the PHP `date()` formats the plugin prints:
 * `Y-m-d H:i`, `Y-m-d`, `H:i`, `Y`, `m`, `d` and the compact `Ymd`.
 * Each printed form can be read back, so distinct times print differently.
 */
module Calendar {
  import opened Wrappers
  import Decimal

  datatype Date = Date(year: nat, month: nat, day: nat)

  /** A moment to the minute, as `current_time('timestamp')` shows it in the site's timezone. */
  datatype DateTime = DateTime(date: Date, hour: nat, minute: nat)

  /**
   * The ranges `date()` prints within: a four-digit year, a month from 1 to
   * 12 and a day from 1 to 31. Month lengths play no part in any property
   * here, so they are not checked.
   */
  predicate ValidDate(d: Date) {
    d.year < 10000 && 1 <= d.month <= 12 && 1 <= d.day <= 31
  }

  predicate Valid(t: DateTime) {
    ValidDate(t.date) && t.hour < 24 && t.minute < 60
  }

  /** `date('Y')`: the year, zero-padded to four digits. */
  function Year(d: Date): (r: string)
    ensures Decimal.AllDigits(r) && r != []
    ensures ValidDate(d) ==> |r| == 4
  {
    Decimal.Field(d.year, 4)
  }

  /** `date('m')`: the month, zero-padded to two digits. */
  function Month(d: Date): (r: string)
    ensures Decimal.AllDigits(r) && r != []
    ensures ValidDate(d) ==> |r| == 2
  {
    Decimal.Field(d.month, 2)
  }

  /** `date('d')`: the day of the month, zero-padded to two digits. */
  function Day(d: Date): (r: string)
    ensures Decimal.AllDigits(r) && r != []
    ensures ValidDate(d) ==> |r| == 2
  {
    Decimal.Field(d.day, 2)
  }

  /** `date('Y-m-d')`. */
  function DateOnly(d: Date): (r: string)
    ensures ValidDate(d) ==> |r| == 10
  {
    Year(d) + "-" + Month(d) + "-" + Day(d)
  }

  /** `date('H:i')`. */
  function TimeOnly(t: DateTime): (r: string)
    ensures Valid(t) ==> |r| == 5
  {
    Decimal.Field(t.hour, 2) + ":" + Decimal.Field(t.minute, 2)
  }

  /** `date('Y-m-d H:i')`. */
  function Stamp(t: DateTime): (r: string)
    ensures Valid(t) ==> |r| == 16
  {
    DateOnly(t.date) + " " + TimeOnly(t)
  }

  /** `date('Ymd')`. */
  function Compact(d: Date): (r: string)
    ensures Decimal.AllDigits(r)
    ensures ValidDate(d) ==> |r| == 8
  {
    var y, m := Year(d), Month(d);
    Decimal.AllDigitsConcat(y, m);
    Decimal.AllDigitsConcat(y + m, Day(d));
    y + m + Day(d)
  }

  /** Reads a `Y-m-d` string back into a date; anything else of the wrong shape is `None`. */
  function ParseDate(s: string): Option<Date> {
    if |s| == 10 && s[4] == '-' && s[7] == '-'
       && Decimal.AllDigits(s[..4]) && Decimal.AllDigits(s[5..7]) && Decimal.AllDigits(s[8..])
    then Some(Date(Decimal.Value(s[..4]), Decimal.Value(s[5..7]), Decimal.Value(s[8..])))
    else None
  }

  /** Reads an `H:i` string back into an hour and a minute. */
  function ParseTime(s: string): Option<(nat, nat)> {
    if |s| == 5 && s[2] == ':' && Decimal.AllDigits(s[..2]) && Decimal.AllDigits(s[3..])
    then Some((Decimal.Value(s[..2]), Decimal.Value(s[3..])))
    else None
  }

  /** Reads a `Y-m-d H:i` string back into a moment. */
  function ParseStamp(s: string): Option<DateTime> {
    if |s| == 16 && s[10] == ' ' then
      match (ParseDate(s[..10]), ParseTime(s[11..]))
      case (Some(d), Some((h, m))) => Some(DateTime(d, h, m))
      case _ => None
    else None
  }

  /** Reads a `Ymd` string back into a date. */
  function ParseCompact(s: string): Option<Date> {
    if |s| == 8 && Decimal.AllDigits(s)
    then Some(Date(Decimal.Value(s[..4]), Decimal.Value(s[4..6]), Decimal.Value(s[6..])))
    else None
  }

  /** Three pieces joined with a separator character can be cut back out. */
  lemma CutJoined(a: string, b: string, c: string, sep: char)
    ensures var s := a + [sep] + b + [sep] + c;
      && s[..|a|] == a && s[|a|] == sep
      && s[|a| + 1..|a| + 1 + |b|] == b && s[|a| + 1 + |b|] == sep
      && s[|a| + |b| + 2..] == c
  {
  }

  /** Three pieces run together can be cut back out. */
  lemma CutRunTogether(a: string, b: string, c: string)
    ensures var s := a + b + c;
      s[..|a|] == a && s[|a|..|a| + |b|] == b && s[|a| + |b|..] == c
  {
  }

  /** The `Y-m-d` form of a valid date reads back as that date. */
  lemma ParseDateOnly(d: Date)
    requires ValidDate(d)
    ensures ParseDate(DateOnly(d)) == Some(d)
  {
    var y, m, dd := Year(d), Month(d), Day(d);
    var s := DateOnly(d);
    assert s == y + ['-'] + m + ['-'] + dd;
    CutJoined(y, m, dd, '-');
    assert s[..4] == y && s[5..7] == m && s[8..] == dd;
    Decimal.FieldValue(d.year, 4);
    Decimal.FieldValue(d.month, 2);
    Decimal.FieldValue(d.day, 2);
    assert ParseDate(s) == Some(Date(Decimal.Value(y), Decimal.Value(m), Decimal.Value(dd)));
  }

  /** The `H:i` form of a valid time reads back as its hour and minute. */
  lemma ParseTimeOnly(t: DateTime)
    requires Valid(t)
    ensures ParseTime(TimeOnly(t)) == Some((t.hour, t.minute))
  {
    Decimal.FieldValue(t.hour, 2);
    Decimal.FieldValue(t.minute, 2);
    ParseClockParts(Decimal.Field(t.hour, 2), Decimal.Field(t.minute, 2));
  }

  /** Two two-digit fields joined by `:` read back as their values. */
  lemma ParseClockParts(h: string, m: string)
    requires |h| == 2 && |m| == 2 && Decimal.AllDigits(h) && Decimal.AllDigits(m)
    ensures ParseTime(h + ":" + m) == Some((Decimal.Value(h), Decimal.Value(m)))
  {
    var s := h + ":" + m;
    JoinParts(h, ':', m);
    assert s[..2] == h && s[3..] == m && s[2] == ':';
  }

  /** The `Ymd` form of a valid date reads back as that date. */
  lemma ParseCompactDate(d: Date)
    requires ValidDate(d)
    ensures ParseCompact(Compact(d)) == Some(d)
  {
    var y, m, dd := Year(d), Month(d), Day(d);
    var s := Compact(d);
    assert s == y + m + dd;
    CutRunTogether(y, m, dd);
    assert s[..4] == y && s[4..6] == m && s[6..] == dd;
    Decimal.FieldValue(d.year, 4);
    Decimal.FieldValue(d.month, 2);
    Decimal.FieldValue(d.day, 2);
    assert ParseCompact(s) == Some(Date(Decimal.Value(y), Decimal.Value(m), Decimal.Value(dd)));
  }

  /** The two pieces of a string joined at a separator character can be cut back out. */
  lemma JoinParts(a: string, sep: char, b: string)
    ensures (a + [sep] + b)[..|a|] == a && (a + [sep] + b)[|a| + 1..] == b
  {
  }

  /** The `Y-m-d H:i` form of a valid moment reads back as that moment. */
  lemma ParseStampOf(t: DateTime)
    requires Valid(t)
    ensures ParseStamp(Stamp(t)) == Some(t)
  {
    ParseDateOnly(t.date);
    ParseTimeOnly(t);
    ParseJoined(DateOnly(t.date), TimeOnly(t), t);
  }

  /** A `Y-m-d` date and an `H:i` time joined by a space read back as the moment they print. */
  lemma ParseJoined(d: string, c: string, t: DateTime)
    requires |d| == 10 && ParseDate(d) == Some(t.date)
    requires ParseTime(c) == Some((t.hour, t.minute))
    ensures ParseStamp(d + " " + c) == Some(t)
  {
    var s := d + " " + c;
    JoinParts(d, ' ', c);
    assert s[..10] == d && s[11..] == c && s[10] == ' ';
  }

  /** Distinct valid moments print distinct `Y-m-d H:i` stamps. */
  lemma StampInjective(a: DateTime, b: DateTime)
    requires Valid(a) && Valid(b) && a != b
    ensures Stamp(a) != Stamp(b)
  {
    ParseStampOf(a);
    ParseStampOf(b);
  }

  /** Distinct valid dates print distinct `Ymd` strings. */
  lemma CompactInjective(a: Date, b: Date)
    requires ValidDate(a) && ValidDate(b) && a != b
    ensures Compact(a) != Compact(b)
  {
    ParseCompactDate(a);
    ParseCompactDate(b);
  }
}
