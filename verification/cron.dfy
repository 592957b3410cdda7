/**
 * WP-Cron as the plugin uses it: the table of recurrence schedules it
 * extends, the list of registered recurring events, and the plugin's single
 * registration of `openai_post_generator_cron_event`.
 *
 * Time is in whole seconds. `time()` is the UTC clock; WordPress's
 * `current_time('timestamp')` is that clock shifted by the site's offset
 * from UTC. PHP's `date()` and `mktime()` run in UTC here (WordPress fixes
 * PHP's default timezone to UTC), so a day is a fixed 86400 seconds.
 */
module Cron {
  import opened Wrappers
  import Decimal
  import Php

  /** A recurrence schedule: its period in seconds and its label. */
  datatype Schedule = Schedule(interval: nat, display: string)

  /** A registered recurring event: its first run (UTC seconds), its recurrence name and its hook. */
  datatype Event = Event(timestamp: int, recurrence: string, hook: string)

  /** The two clocks a request sees: `time()` and the site's offset from UTC, in seconds. */
  datatype Clock = Clock(utc: int, offset: int)

  /** `current_time('timestamp')`: the UTC clock shifted into the site's timezone. */
  function Local(c: Clock): int {
    c.utc + c.offset
  }

  const Hook: string := "openai_post_generator_cron_event"

  const Day: int := 86400

  /** The minute-based recurrences the plugin registers, and the minutes each one's name states. */
  const CustomNames: seq<string> := ["every_5_minutes", "every_10_minutes", "every_30_minutes", "every_60_minutes"]
  const CustomMinutes: seq<nat> := [5, 10, 30, 60]

  predicate IsCustom(frequency: string) {
    frequency in CustomNames
  }

  /** The name a recurrence of `minutes` minutes is given: `every_<minutes>_minutes`. */
  function IntervalName(minutes: nat): string {
    "every_" + Decimal.Digits(minutes) + "_minutes"
  }

  /** `add_custom_cron_intervals`: adds (or overwrites) the four minute-based recurrences. */
  function AddCustomIntervals(schedules: map<string, Schedule>): (r: map<string, Schedule>)
    ensures forall k :: k in r <==> k in schedules || IsCustom(k)
    ensures forall k :: k in schedules && !IsCustom(k) ==> r[k] == schedules[k]
  {
    schedules["every_5_minutes" := Schedule(5 * 60, "Every 5 Minutes")]
             ["every_10_minutes" := Schedule(10 * 60, "Every 10 Minutes")]
             ["every_30_minutes" := Schedule(30 * 60, "Every 30 Minutes")]
             ["every_60_minutes" := Schedule(60 * 60, "Every 60 Minutes")]
  }

  /** Each added recurrence's period is the number of minutes its name states. */
  lemma CustomIntervalPeriods(schedules: map<string, Schedule>)
    ensures forall i :: 0 <= i < 4 ==>
      CustomNames[i] == IntervalName(CustomMinutes[i])
      && AddCustomIntervals(schedules)[CustomNames[i]].interval == 60 * CustomMinutes[i]
  {
    assert Decimal.Digits(5) == "5";
    assert Decimal.Digits(10) == "10";
    assert Decimal.Digits(30) == "30";
    assert Decimal.Digits(60) == "60";
  }

  /** Adding the recurrences a second time changes nothing. */
  lemma AddCustomIntervalsIdempotent(schedules: map<string, Schedule>)
    ensures AddCustomIntervals(AddCustomIntervals(schedules)) == AddCustomIntervals(schedules)
  {
  }

  /** `wp_clear_scheduled_hook`: drops every event of the hook and keeps the rest in order. */
  function ClearHook(events: seq<Event>, hook: string): (r: seq<Event>)
    ensures forall e :: e in r <==> e in events && e.hook != hook
    ensures |r| <= |events|
  {
    if events == [] then []
    else if events[0].hook == hook then ClearHook(events[1..], hook)
    else [events[0]] + ClearHook(events[1..], hook)
  }

  /** The number of events registered for the hook. */
  function Count(events: seq<Event>, hook: string): nat {
    if events == [] then 0
    else (if events[0].hook == hook then 1 else 0) + Count(events[1..], hook)
  }

  /** Clearing a list with no event of the hook leaves it as it is. */
  lemma {:induction false} ClearHookWithoutHook(events: seq<Event>, hook: string)
    requires forall e :: e in events ==> e.hook != hook
    ensures ClearHook(events, hook) == events
  {
    if events != [] {
      assert events[0] in events;
      assert forall e :: e in events[1..] ==> e in events;
      ClearHookWithoutHook(events[1..], hook);
    }
  }

  /** Nothing is counted for a hook none of whose events remain. */
  lemma {:induction false} CountWithoutHook(events: seq<Event>, hook: string)
    requires forall e :: e in events ==> e.hook != hook
    ensures Count(events, hook) == 0
  {
    if events != [] {
      assert events[0] in events;
      assert forall e :: e in events[1..] ==> e in events;
      CountWithoutHook(events[1..], hook);
    }
  }

  /** The count over two lists run together is the sum of their counts. */
  lemma {:induction false} CountAppend(a: seq<Event>, b: seq<Event>, hook: string)
    ensures Count(a + b, hook) == Count(a, hook) + Count(b, hook)
  {
    if a == [] {
      assert a + b == b;
    } else {
      assert (a + b)[1..] == a[1..] + b;
      CountAppend(a[1..], b, hook);
    }
  }

  /**
   * `wp_schedule_event`: a recurring event is added only for a positive
   * first run and a recurrence the schedule table knows.
   */
  function ScheduleEvent(events: seq<Event>, timestamp: int, recurrence: string, hook: string,
                         schedules: map<string, Schedule>): seq<Event>
  {
    if timestamp > 0 && recurrence in schedules then events + [Event(timestamp, recurrence, hook)]
    else events
  }

  /** Index of the first `:` in `s`, or `|s|` when there is none. */
  function ColonAt(s: string): (k: nat)
    ensures k <= |s|
    ensures forall i :: 0 <= i < k ==> s[i] != ':'
    ensures k == |s| || s[k] == ':'
  {
    if s == [] || s[0] == ':' then 0 else 1 + ColonAt(s[1..])
  }

  /**
   * `list($hour, $minute) = explode(':', $time)`, each piece read as an
   * integer. With no `:` the minute is missing, and `mktime` then uses the
   * current minute of the UTC clock.
   */
  function ParseClock(time: string, utc: int): (hm: (int, int)) {
    var k := ColonAt(time);
    var hour := Php.IntVal(time[..k]);
    if k == |time| then (hour, utc % 3600 / 60)
    else
      var rest := time[k + 1..];
      (hour, Php.IntVal(rest[..ColonAt(rest)]))
  }

  /** The time of day of a timestamp, in seconds since midnight. */
  function TimeOfDay(t: int): (s: int)
    ensures 0 <= s < Day
  {
    t % Day
  }

  /** The time of day on the site clock of the UTC instant `t`. */
  function SiteTimeOfDay(t: int, c: Clock): int {
    TimeOfDay(t + c.offset)
  }

  /** The midnight that starts the day of `t`. */
  function DayStart(t: int): (r: int)
    ensures r <= t < r + Day
    ensures TimeOfDay(r) == 0
  {
    t - t % Day
  }

  /**
   * `get_next_scheduled_time` on the clock `now`: the given hour and minute
   * on the day of `now` (`mktime` accepts any hour and minute and carries
   * the excess), moved one day on when that is not after `now`.
   */
  function NextScheduledTime(now: int, hour: int, minute: int): int {
    var slot := DayStart(now) + hour * 3600 + minute * 60;
    if slot <= now then slot + Day else slot
  }

  /** A timestamp inside a day's 86400 seconds is its distance from that day's midnight. */
  lemma TimeOfDayWithin(t: int, midnight: int)
    requires TimeOfDay(midnight) == 0 && midnight <= t < midnight + Day
    ensures TimeOfDay(t) == t - midnight
  {
    var q := midnight / Day;
    assert midnight == q * Day;
    assert t == q * Day + (t - midnight);
  }

  /**
   * For a real hour and minute the next run is after `now`, at most a day
   * later, at that hour and minute, and no earlier instant after `now` is.
   */
  lemma NextRunSpec(now: int, hour: int, minute: int)
    requires 0 <= hour < 24 && 0 <= minute < 60
    ensures var r := NextScheduledTime(now, hour, minute);
      && now < r <= now + Day
      && TimeOfDay(r) == hour * 3600 + minute * 60
      && forall t :: now < t < r ==> TimeOfDay(t) != hour * 3600 + minute * 60
  {
    var c := hour * 3600 + minute * 60;
    var m := DayStart(now);
    var r := NextScheduledTime(now, hour, minute);
    TimeOfDayWithin(m + c, m);
    if m + c <= now {
      assert TimeOfDay(m + Day) == 0 by {
        var q := m / Day;
        assert m == q * Day;
        assert m + Day == (q + 1) * Day;
      }
      TimeOfDayWithin(m + Day + c, m + Day);
      forall t | now < t < r ensures TimeOfDay(t) != c {
        if t < m + Day {
          TimeOfDayWithin(t, m);
        } else {
          TimeOfDayWithin(t, m + Day);
        }
      }
    } else {
      forall t | now < t < r ensures TimeOfDay(t) != c {
        TimeOfDayWithin(t, m);
      }
    }
  }

  /**
   * The first run `handle_scheduling` asks for, as written: now for a
   * minute-based recurrence, otherwise the next occurrence of the
   * configured time on the site clock; nothing for an empty frequency or,
   * for any other recurrence, an empty time.
   */
  function FirstRunAsWritten(frequency: string, time: string, clock: Clock): Option<int> {
    if Php.Falsy(frequency) then None
    else if IsCustom(frequency) then Some(clock.utc)
    else if !Php.Falsy(time) then
      var (hour, minute) := ParseClock(time, clock.utc);
      Some(NextScheduledTime(Local(clock), hour, minute))
    else None
  }

  /**
   * The first run as intended: the same choice, with the next occurrence
   * of the configured site-local time turned back into UTC, which is what
   * `wp_schedule_event` takes.
   */
  function FirstRun(frequency: string, time: string, clock: Clock): (r: Option<int>)
    ensures Php.Falsy(frequency) ==> r == None
    ensures !Php.Falsy(frequency) && IsCustom(frequency) ==> r == Some(clock.utc)
    ensures !Php.Falsy(frequency) && !IsCustom(frequency) ==> (r.Some? <==> !Php.Falsy(time))
  {
    match FirstRunAsWritten(frequency, time, clock)
    case None => None
    case Some(t) => if IsCustom(frequency) then Some(t) else Some(t - clock.offset)
  }

  /**
   * A daily (or other non-minute) schedule with a real hour and minute
   * first runs after now, at most a day later, at the configured time on
   * the site clock, and at the earliest such instant.
   */
  lemma FirstRunSpec(frequency: string, time: string, clock: Clock)
    requires !Php.Falsy(frequency) && !IsCustom(frequency) && !Php.Falsy(time)
    requires var (h, m) := ParseClock(time, clock.utc); 0 <= h < 24 && 0 <= m < 60
    ensures var (h, m) := ParseClock(time, clock.utc);
      var r := FirstRun(frequency, time, clock).value;
      && clock.utc < r <= clock.utc + Day
      && SiteTimeOfDay(r, clock) == h * 3600 + m * 60
      && forall t :: clock.utc < t < r ==> SiteTimeOfDay(t, clock) != h * 3600 + m * 60
  {
    var (h, m) := ParseClock(time, clock.utc);
    FirstRunValue(frequency, time, clock);
    ShiftedRun(clock, h, m);
  }

  /** The next site-clock occurrence of a time of day, turned into UTC, is the earliest UTC instant showing it. */
  lemma ShiftedRun(clock: Clock, h: int, m: int)
    requires 0 <= h < 24 && 0 <= m < 60
    ensures var r := NextScheduledTime(Local(clock), h, m) - clock.offset;
      && clock.utc < r <= clock.utc + Day
      && SiteTimeOfDay(r, clock) == h * 3600 + m * 60
      && forall t :: clock.utc < t < r ==> SiteTimeOfDay(t, clock) != h * 3600 + m * 60
  {
    var now := Local(clock);
    var next := NextScheduledTime(now, h, m);
    NextRunSpec(now, h, m);
    forall t | clock.utc < t < next - clock.offset ensures SiteTimeOfDay(t, clock) != h * 3600 + m * 60 {
      assert now < t + clock.offset < next;
    }
  }

  /** A non-minute schedule with a time first runs at the next site-clock occurrence, turned into UTC. */
  lemma FirstRunValue(frequency: string, time: string, clock: Clock)
    requires !Php.Falsy(frequency) && !IsCustom(frequency) && !Php.Falsy(time)
    ensures var (h, m) := ParseClock(time, clock.utc);
      FirstRun(frequency, time, clock) == Some(NextScheduledTime(Local(clock), h, m) - clock.offset)
  {
    var hm := ParseClock(time, clock.utc);
    assert FirstRunAsWritten(frequency, time, clock) == Some(NextScheduledTime(Local(clock), hm.0, hm.1));
  }

  /** What is written is the intended first run shifted by the site's offset from UTC. */
  lemma AsWrittenIsShifted(frequency: string, time: string, clock: Clock)
    requires !Php.Falsy(frequency) && !IsCustom(frequency) && !Php.Falsy(time)
    ensures FirstRunAsWritten(frequency, time, clock).Some?
    ensures FirstRunAsWritten(frequency, time, clock).value == FirstRun(frequency, time, clock).value + clock.offset
  {
  }

  /** The first `:` after a run of digits is the one right after them. */
  lemma ColonAfterDigits(a: string, b: string)
    requires Decimal.AllDigits(a)
    ensures ColonAt(a + ":" + b) == |a|
  {
    var s := a + ":" + b;
    assert s[|a|] == ':';
  }

  /** A run of digits holds no `:`. */
  lemma NoColonInDigits(a: string)
    requires Decimal.AllDigits(a)
    ensures ColonAt(a) == |a|
  {
  }

  /** A time printed as `H:i` (the settings form's own format) reads back as its hour and minute. */
  lemma ParseFormattedClock(hour: nat, minute: nat, utc: int)
    ensures ParseClock(Decimal.Field(hour, 2) + ":" + Decimal.Field(minute, 2), utc) == (hour, minute)
  {
    ParseDigitPair(Decimal.Field(hour, 2), Decimal.Field(minute, 2), utc);
    Decimal.FieldValue(hour, 2);
    Decimal.FieldValue(minute, 2);
  }

  /** Two runs of digits around a `:` read as their values. */
  lemma ParseDigitPair(a: string, b: string, utc: int)
    requires Decimal.AllDigits(a) && Decimal.AllDigits(b) && a != [] && b != []
    ensures ParseClock(a + ":" + b, utc) == (Decimal.Value(a), Decimal.Value(b))
  {
    var s := a + ":" + b;
    ColonAfterDigits(a, b);
    assert s[..|a|] == a && s[|a| + 1..] == b;
    NoColonInDigits(b);
    assert b[..|b|] == b;
  }

  /** `08:00` reads as eight o'clock. */
  lemma EightOClock(utc: int)
    ensures ParseClock("08:00", utc) == (8, 0)
  {
    var s := "08:00";
    assert ColonAt(s) == 2 by {
      assert s[0] != ':' && s[1] != ':' && s[2] == ':';
      assert ColonAt(s) == 1 + ColonAt(s[1..]);
      assert ColonAt(s[1..]) == 1 + ColonAt(s[2..]);
    }
    assert s[..2] == "08" && s[3..] == "00";
    assert ColonAt("00") == 2 by {
      assert ColonAt("00") == 1 + ColonAt("0");
      assert ColonAt("0") == 1 + ColonAt([]);
    }
    assert "00"[..2] == "00";
    assert Decimal.Value("08") == 8 && Decimal.Value("00") == 0 by {
      assert "08"[..1] == "0" && "00"[..1] == "0";
    }
  }

  /**
   * On a site one hour ahead of UTC, a daily schedule for `08:00` saved at
   * midnight UTC is registered, as written, for 09:00 site time; the
   * corrected registration is for 08:00.
   */
  lemma DailyRunAnHourLate()
    ensures var c, s := Clock(86400, 3600), map["daily" := Schedule(86400, "Once Daily")];
      && HandleSchedulingAsWritten([], "daily", "08:00", c, s) == [Event(115200, "daily", Hook)]
      && SiteTimeOfDay(115200, c) == 9 * 3600
      && HandleScheduling([], "daily", "08:00", c, s) == [Event(111600, "daily", Hook)]
      && SiteTimeOfDay(111600, c) == 8 * 3600
  {
    var c, s := Clock(86400, 3600), map["daily" := Schedule(86400, "Once Daily")];
    DailyFirstRuns();
    RegisterFresh("daily", 115200, s);
    RegisterFresh("daily", 111600, s);
    assert HandleSchedulingAsWritten([], "daily", "08:00", c, s) == Register([], "daily", Some(115200), s);
    assert HandleScheduling([], "daily", "08:00", c, s) == Register([], "daily", Some(111600), s);
    assert SiteTimeOfDay(115200, c) == 118800 % Day;
    assert SiteTimeOfDay(111600, c) == 115200 % Day;
  }

  /** The two first runs of the example: 08:00 tomorrow on the site clock, as written and corrected. */
  lemma DailyFirstRuns()
    ensures FirstRunAsWritten("daily", "08:00", Clock(86400, 3600)) == Some(115200)
    ensures FirstRun("daily", "08:00", Clock(86400, 3600)) == Some(111600)
  {
    EightOClock(86400);
    assert !IsCustom("daily");
    assert !Php.Falsy("daily") && !Php.Falsy("08:00");
    assert NextScheduledTime(90000, 8, 0) == 115200;
  }

  /** Registering on an empty list schedules exactly the one event. */
  lemma RegisterFresh(frequency: string, t: int, schedules: map<string, Schedule>)
    requires t > 0 && frequency in schedules
    ensures Register([], frequency, Some(t), schedules) == [Event(t, frequency, Hook)]
  {
    assert ClearHook([], Hook) == [];
  }

  /**
   * Clears the hook, then registers at most one event for it: the
   * registration step shared by the as-written and the corrected
   * scheduling.
   */
  function Register(events: seq<Event>, frequency: string, first: Option<int>,
                    schedules: map<string, Schedule>): (r: seq<Event>)
    ensures forall e: Event :: e.hook != Hook ==> (e in r <==> e in events)
    ensures forall e :: e in r && e.hook == Hook ==> first.Some? && e == Event(first.value, frequency, Hook)
    ensures Count(r, Hook) <= 1
    ensures Count(r, Hook) == 1 <==> first.Some? && first.value > 0 && frequency in schedules
  {
    var cleared := ClearHook(events, Hook);
    CountWithoutHook(cleared, Hook);
    if first.Some? then
      CountAppend(cleared, [Event(first.value, frequency, Hook)], Hook);
      ScheduleEventIf(cleared, frequency, first, schedules)
    else ScheduleEventIf(cleared, frequency, first, schedules)
  }

  /**
   * `handle_scheduling` as written: the daily first run is taken on the
   * site clock. Other hooks are untouched, at most one registration is
   * left, none for an empty frequency, a minute-based one runs now, and
   * any other runs at the next site-clock occurrence of its time, or not
   * at all without a time.
   */
  function HandleSchedulingAsWritten(events: seq<Event>, frequency: string, time: string, clock: Clock,
                                     schedules: map<string, Schedule>): (r: seq<Event>)
    ensures forall e: Event :: e.hook != Hook ==> (e in r <==> e in events)
    ensures Count(r, Hook) <= 1
    ensures Php.Falsy(frequency) ==> Count(r, Hook) == 0
    ensures !Php.Falsy(frequency) && IsCustom(frequency) && frequency in schedules && clock.utc > 0 ==>
      Event(clock.utc, frequency, Hook) in r
    ensures var hm := ParseClock(time, clock.utc); var t := NextScheduledTime(Local(clock), hm.0, hm.1);
      !Php.Falsy(frequency) && !IsCustom(frequency) && !Php.Falsy(time) && frequency in schedules && t > 0 ==>
        Event(t, frequency, Hook) in r
    ensures !Php.Falsy(frequency) && !IsCustom(frequency) && Php.Falsy(time) ==> Count(r, Hook) == 0
  {
    var first := FirstRunAsWritten(frequency, time, clock);
    var r := Register(events, frequency, first, schedules);
    if first.Some? && first.value > 0 && frequency in schedules then
      CountedIsPresent(r, Hook);
      r
    else r
  }

  /** Saving the same schedule twice, as written, leaves the same registrations as saving it once. */
  lemma HandleSchedulingAsWrittenIdempotent(events: seq<Event>, frequency: string, time: string, clock: Clock,
                                            schedules: map<string, Schedule>)
    ensures var once := HandleSchedulingAsWritten(events, frequency, time, clock, schedules);
      HandleSchedulingAsWritten(once, frequency, time, clock, schedules) == once
  {
    var cleared := ClearHook(events, Hook);
    ClearAfterRegister(cleared, frequency, FirstRunAsWritten(frequency, time, clock), schedules);
  }

  /**
   * `handle_scheduling` with the first run given in UTC: as written, except
   * that the next site-clock occurrence of the time is turned back into UTC.
   */
  function HandleScheduling(events: seq<Event>, frequency: string, time: string, clock: Clock,
                            schedules: map<string, Schedule>): (r: seq<Event>)
    ensures forall e: Event :: e.hook != Hook ==> (e in r <==> e in events)
    ensures Count(r, Hook) <= 1
    ensures Php.Falsy(frequency) ==> Count(r, Hook) == 0
    ensures !Php.Falsy(frequency) && IsCustom(frequency) && frequency in schedules && clock.utc > 0 ==>
      Event(clock.utc, frequency, Hook) in r
    ensures var hm := ParseClock(time, clock.utc); var t := NextScheduledTime(Local(clock), hm.0, hm.1) - clock.offset;
      !Php.Falsy(frequency) && !IsCustom(frequency) && !Php.Falsy(time) && frequency in schedules && t > 0 ==>
        Event(t, frequency, Hook) in r
    ensures !Php.Falsy(frequency) && !IsCustom(frequency) && Php.Falsy(time) ==> Count(r, Hook) == 0
  {
    var first := FirstRun(frequency, time, clock);
    var r := Register(events, frequency, first, schedules);
    if !Php.Falsy(frequency) && !IsCustom(frequency) && !Php.Falsy(time) then
      FirstRunValue(frequency, time, clock);
      if first.value > 0 && frequency in schedules then
        CountedIsPresent(r, Hook);
        r
      else r
    else if first.Some? && first.value > 0 && frequency in schedules then
      CountedIsPresent(r, Hook);
      r
    else r
  }

  /** An event counted for the hook is in the list. */
  lemma {:induction false} CountedIsPresent(events: seq<Event>, hook: string)
    requires Count(events, hook) > 0
    ensures exists e :: e in events && e.hook == hook
  {
    if events[0].hook != hook {
      CountedIsPresent(events[1..], hook);
      var e :| e in events[1..] && e.hook == hook;
      assert e in events;
    }
  }

  /** Saving the same schedule twice leaves the same registrations as saving it once. */
  lemma HandleSchedulingIdempotent(events: seq<Event>, frequency: string, time: string, clock: Clock,
                                   schedules: map<string, Schedule>)
    ensures var once := HandleScheduling(events, frequency, time, clock, schedules);
      HandleScheduling(once, frequency, time, clock, schedules) == once
  {
    var once := HandleScheduling(events, frequency, time, clock, schedules);
    var cleared := ClearHook(events, Hook);
    ClearAfterRegister(cleared, frequency, FirstRun(frequency, time, clock), schedules);
  }

  /** Clearing a freshly registered list gives back the list before registration. */
  lemma ClearAfterRegister(cleared: seq<Event>, frequency: string, first: Option<int>,
                           schedules: map<string, Schedule>)
    requires forall e :: e in cleared ==> e.hook != Hook
    ensures ClearHook(ScheduleEventIf(cleared, frequency, first, schedules), Hook) == cleared
  {
    ClearHookWithoutHook(cleared, Hook);
    match first
    case None =>
    case Some(t) =>
      if t > 0 && frequency in schedules {
        ClearHookAppended(cleared, Event(t, frequency, Hook));
      }
  }

  function ScheduleEventIf(cleared: seq<Event>, frequency: string, first: Option<int>,
                           schedules: map<string, Schedule>): seq<Event>
  {
    match first
    case None => cleared
    case Some(t) => ScheduleEvent(cleared, t, frequency, Hook, schedules)
  }

  /** Clearing drops an event of the hook appended to a list without one. */
  lemma {:induction false} ClearHookAppended(events: seq<Event>, e: Event)
    requires e.hook == Hook && forall i :: 0 <= i < |events| ==> events[i].hook != Hook
    ensures ClearHook(events + [e], Hook) == events
  {
    if events == [] {
      assert events + [e] == [e];
    } else {
      var t, tail := events + [e], events[1..];
      assert t[0] == events[0] && t[1..] == tail + [e];
      assert forall i :: 0 <= i < |tail| ==> tail[i] == events[i + 1];
      ClearHookAppended(tail, e);
      KeepStep(t, Hook);
      assert events == [events[0]] + tail;
    }
  }

  /** An event of another hook at the head is kept at the head. */
  lemma KeepStep(events: seq<Event>, hook: string)
    requires events != [] && events[0].hook != hook
    ensures ClearHook(events, hook) == [events[0]] + ClearHook(events[1..], hook)
  {
  }
}
