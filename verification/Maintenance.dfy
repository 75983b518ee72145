/**
 The maintenance window (`config/maintenance/maintenance.go`), in a zone with a fixed offset. Instants are
 nanoseconds since the Unix epoch; a day is a number of days since 1 January 1970, which was a Thursday.
 */
module Maintenance {
  import opened Wrappers
  import opened Strconv

  const SECOND := 1_000_000_000
  const MINUTE := 60 * SECOND
  const HOUR := 60 * MINUTE
  const DAY := 24 * HOUR

  const LONG_DAY_NAMES := ["Sunday", "Monday", "Tuesday", "Wednesday", "Thursday", "Friday", "Saturday"]

  datatype MaintenanceError = InvalidDayName | InvalidStartFormat | NotANumber | InvalidDuration | InvalidTimezone

  function Weekday(day: int): string {
    LONG_DAY_NAMES[(day + 4) % 7]
  }

  /** 1 January 1970 was a Thursday, and the days follow each other week after week, also before. */
  lemma Weekdays(week: int)
    ensures Weekday(7 * week - 4) == "Sunday" && Weekday(7 * week - 3) == "Monday" && Weekday(7 * week - 2) == "Tuesday"
    ensures Weekday(7 * week - 1) == "Wednesday" && Weekday(7 * week) == "Thursday" && Weekday(7 * week + 1) == "Friday"
    ensures Weekday(7 * week + 2) == "Saturday"
  {
  }

  // ---------- the specification ----------

  /** A window starts on a day when no day is listed or the day is one of those listed. */
  predicate Scheduled(every: seq<string>, day: int) {
    every == [] || Weekday(day) in every
  }

  /** The instant lies strictly inside the window that starts on the given day. */
  predicate InWindowOf(day: int, start: int, duration: int, local: int) {
    day * DAY + start < local < day * DAY + start + duration
  }

  ghost predicate InSomeWindow(every: seq<string>, start: int, duration: int, local: int) {
    exists day: int :: Scheduled(every, day) && InWindowOf(day, start, duration, local)
  }

  function DayOf(local: int): int {
    local / DAY
  }

  function HourOf(local: int): int {
    local % DAY / HOUR
  }

  // ---------- the code, as a function ----------

  /** The only day the code looks at: yesterday until the hour in which the window starts, today from then on. */
  function DayConsidered(start: int, local: int): int {
    if HourOf(local) < start / HOUR then DayOf(local) - 1 else DayOf(local)
  }

  predicate UnderMaintenance(every: seq<string>, start: int, duration: int, local: int) {
    var day := DayConsidered(start, local);
    Scheduled(every, day) && InWindowOf(day, start, duration, local)
  }

  /** The start of a validated configuration: a whole number of minutes within the day. */
  predicate ValidStart(start: int) {
    0 <= start < DAY && start % MINUTE == 0
  }

  /** Minutes past the hour at which the window starts. */
  function Past(start: int): int {
    start % HOUR
  }

  /** Only today's and yesterday's windows can contain an instant. */
  lemma OnlyTodayOrYesterday(day: int, start: int, duration: int, local: int)
    requires ValidStart(start) && 0 < duration <= DAY && InWindowOf(day, start, duration, local)
    ensures day == DayOf(local) || day == DayOf(local) - 1
  {
    var today := DayOf(local);
    assert local == today * DAY + local % DAY;
  }

  /** The window of yesterday that the code overlooks: it is still open in the hour in which today's will start. */
  predicate Overlooked(every: seq<string>, start: int, duration: int, local: int) {
    && HourOf(local) == start / HOUR
    && Scheduled(every, DayOf(local) - 1)
    && local < (DayOf(local) - 1) * DAY + start + duration
  }

  lemma TimeOfDay(local: int)
    ensures local == DayOf(local) * DAY + local % DAY && 0 <= local % DAY < DAY
  {
  }

  lemma HoursAndRest(t: int)
    requires 0 <= t < DAY
    ensures t == t / HOUR * HOUR + t % HOUR && 0 <= t / HOUR < 24 && 0 <= t % HOUR < HOUR
  {
  }

  lemma SameRest(day: int, t: int)
    ensures (day * DAY + t) % HOUR == t % HOUR
  {
    assert day * DAY + t == (day * 24 + t / HOUR) * HOUR + t % HOUR;
  }

  lemma Clock(local: int, start: int)
    requires ValidStart(start)
    ensures local == DayOf(local) * DAY + HourOf(local) * HOUR + local % HOUR
    ensures 0 <= HourOf(local) < 24 && 0 <= local % HOUR < HOUR
    ensures start == start / HOUR * HOUR + Past(start) && 0 <= Past(start) < HOUR
  {
    TimeOfDay(local);
    HoursAndRest(local % DAY);
    SameRest(DayOf(local), local % DAY);
    HoursAndRest(start);
  }

  /**
   For every validated configuration and instant: the code agrees with "some scheduled window contains this instant"
   exactly when yesterday's window is not overlooked.
   */
  lemma AgreesUnlessOverlooked(every: seq<string>, start: int, duration: int, local: int)
    requires ValidStart(start) && 0 < duration <= DAY
    ensures (UnderMaintenance(every, start, duration, local) <==> InSomeWindow(every, start, duration, local))
            <==> !Overlooked(every, start, duration, local)
  {
    var today, considered := DayOf(local), DayConsidered(start, local);
    Clock(local, start);
    if Overlooked(every, start, duration, local) {
      assert InWindowOf(today - 1, start, duration, local);
      assert InSomeWindow(every, start, duration, local);
      assert duration > DAY - Past(start);
    }
    if day: int :| Scheduled(every, day) && InWindowOf(day, start, duration, local) {
      OnlyTodayOrYesterday(day, start, duration, local);
    }
    if UnderMaintenance(every, start, duration, local) {
      assert Scheduled(every, considered) && InWindowOf(considered, start, duration, local);
    }
  }

  /** Day names that passed validation. */
  predicate ValidDays(every: seq<string>) {
    forall day <- every :: day in LONG_DAY_NAMES
  }

  lemma SomeDayIsScheduled(every: seq<string>)
    returns (day: int)
    requires ValidDays(every)
    ensures Scheduled(every, day)
  {
    if every == [] {
      day := 0;
    } else {
      assert every[0] in every;
      var i :| 0 <= i < |LONG_DAY_NAMES| && LONG_DAY_NAMES[i] == every[0];
      day := i + 3;
      assert (day + 4) % 7 == i;
    }
  }

  /**
   A configuration is handled correctly at every instant exactly when its duration does not reach beyond the start of
   the hour in which the next day's window starts: 24 hours less the minutes of the start time.
   */
  lemma CorrectAtAllTimesIff(every: seq<string>, start: int, duration: int)
    requires ValidDays(every) && ValidStart(start) && 0 < duration <= DAY
    ensures (forall local: int ::
               UnderMaintenance(every, start, duration, local) <==> InSomeWindow(every, start, duration, local))
            <==> duration <= DAY - Past(start)
  {
    if duration <= DAY - Past(start) {
      forall local: int
        ensures UnderMaintenance(every, start, duration, local) <==> InSomeWindow(every, start, duration, local)
      {
        Clock(local, start);
        AgreesUnlessOverlooked(every, start, duration, local);
      }
    } else {
      var day := SomeDayIsScheduled(every);
      var local := (day + 1) * DAY + start / HOUR * HOUR;
      assert DayOf(local) == day + 1 && HourOf(local) == start / HOUR;
      Clock(local, start);
      assert Overlooked(every, start, duration, local);
      AgreesUnlessOverlooked(every, start, duration, local);
    }
  }

  /**
   Such a configuration in numbers: maintenance is on exactly when, for some day that is listed or if none is, more
   nanoseconds have passed than up to the start of its window, and fewer than up to its end.
   */
  lemma OpenIff(every: seq<string>, start: int, duration: int, local: int)
    requires ValidDays(every) && ValidStart(start) && 0 < duration <= 86_400_000_000_000 - start % 3_600_000_000_000
    ensures UnderMaintenance(every, start, duration, local) <==>
            exists day: int :: (every == [] || Weekday(day) in every)
                               && 0 < local - (day * 86_400_000_000_000 + start) < duration
  {
    CorrectAtAllTimesIff(every, start, duration);
    assert UnderMaintenance(every, start, duration, local) <==> InSomeWindow(every, start, duration, local);
    if day: int :| (every == [] || Weekday(day) in every) && 0 < local - (day * 86_400_000_000_000 + start) < duration {
      assert Scheduled(every, day) && InWindowOf(day, start, duration, local);
    }
    if InSomeWindow(every, start, duration, local) {
      var day: int :| Scheduled(every, day) && InWindowOf(day, start, duration, local);
      assert every == [] || Weekday(day) in every;
      assert 0 < local - (day * 86_400_000_000_000 + start) < duration;
    }
  }

  /**
   For example, a window of two hours that starts on Thursdays at 23:30 is open at one o'clock on Friday, 2 January
   1970, and is not at half past one, nor at one o'clock on Thursday.
   */
  lemma ThursdayNight()
    ensures var start, duration := 84_600_000_000_000, 7_200_000_000_000;
            && UnderMaintenance(["Thursday"], start, duration, 90_000_000_000_000)
            && !UnderMaintenance(["Thursday"], start, duration, 91_800_000_000_000)
            && !UnderMaintenance(["Thursday"], start, duration, 3_600_000_000_000)
  {
    assert Weekday(0) == "Thursday" && Weekday(-1) == "Wednesday";
  }

  // ---------- the start time ----------

  /** Text without one leading zero. */
  function TrimZero(s: string): string {
    if s != "" && s[0] == '0' then s[1..] else s
  }

  /** hhmmToDuration; the third character is not looked at. */
  function HhmmToDuration(s: string): Result<int, MaintenanceError> {
    if |s| != 5 then Failure(InvalidStartFormat)
    else
      var hours, minutes := Atoi(TrimZero(s[..2])), Atoi(TrimZero(s[3..5]));
      if hours.None? || minutes.None? then Failure(NotANumber)
      else if !(0 <= hours.value <= 23 && 0 <= minutes.value <= 59) then Failure(InvalidStartFormat)
      else Success(hours.value * HOUR + minutes.value * MINUTE)
  }

  /** The two-character texts read as n: two digits, but also a signed digit such as "+7" or "-0". */
  predicate ReadsAs(s: string, n: nat) {
    && |s| == 2
    && (|| (IsDigit(s[0]) && IsDigit(s[1]) && n == DigitValue(s[0]) * 10 + DigitValue(s[1]))
        || (s[0] == '+' && IsDigit(s[1]) && n == DigitValue(s[1]))
        || (s == "-0" && n == 0))
  }

  lemma OneDigit(s: string)
    requires |s| == 1
    ensures ParseDigits(s) == if IsDigit(s[0]) then Some(DigitValue(s[0])) else None
  {
    assert s[..0] == "";
  }

  lemma TwoDigits(s: string)
    requires |s| == 2
    ensures ParseDigits(s) ==
            if IsDigit(s[0]) && IsDigit(s[1]) then Some(DigitValue(s[0]) * 10 + DigitValue(s[1])) else None
  {
    OneDigit(s[..1]);
  }

  lemma TwoCharactersRead(s: string, n: nat)
    requires |s| == 2
    ensures Atoi(TrimZero(s)) == Some(n) <==> ReadsAs(s, n)
  {
    OneDigit(s[1..]);
    TwoDigits(s);
    if s[0] == '0' {
      assert TrimZero(s) == s[1..];
      assert s[1..][0] == s[1];
      assert s[1..][1..] == "";
    }
  }

  lemma TimesDiffer(h: nat, m: nat, h': nat, m': nat)
    requires m <= 59 && m' <= 59
    ensures h * HOUR + m * MINUTE == h' * HOUR + m' * MINUTE <==> h == h' && m == m'
  {
    assert h * HOUR + m * MINUTE == (h * 60 + m) * MINUTE && h' * HOUR + m' * MINUTE == (h' * 60 + m') * MINUTE;
  }

  /** Exactly which start times are accepted, and as what: "23:00", but also "23x00", "+5:+9" and "-0:30". */
  lemma HhmmAccepts(s: string, h: nat, m: nat)
    requires h <= 23 && m <= 59
    ensures HhmmToDuration(s) == Success(h * 3_600_000_000_000 + m * 60_000_000_000) <==>
            |s| == 5 && ReadsAs(s[..2], h) && ReadsAs(s[3..5], m)
  {
    if |s| == 5 {
      TwoCharactersRead(s[..2], h);
      TwoCharactersRead(s[3..5], m);
      var hours, minutes := Atoi(TrimZero(s[..2])), Atoi(TrimZero(s[3..5]));
      if hours.Some? && minutes.Some? && 0 <= hours.value <= 23 && 0 <= minutes.value <= 59 {
        TimesDiffer(hours.value, minutes.value, h, m);
      }
    }
  }

  /** What is accepted is a valid start. */
  lemma HhmmIsValidStart(s: string)
    requires HhmmToDuration(s).Success?
    ensures ValidStart(HhmmToDuration(s).value)
  {
    var h, m := Atoi(TrimZero(s[..2])).value, Atoi(TrimZero(s[3..5])).value;
    assert h * HOUR + m * MINUTE == (h * 60 + m) * MINUTE;
  }

  // ---------- the configuration ----------

  class MaintenanceConfig {
    const Enabled: Option<bool>
    const Start: string
    const Duration: int
    const Every: seq<string>
    var Timezone: string
    var timezoneOffset: Option<int>
    var durationToStartFromMidnight: int

    constructor (enabled: Option<bool>, start: string, duration: int, timezone: string, every: seq<string>)
      ensures Enabled == enabled && Start == start && Duration == duration && Timezone == timezone && Every == every
      ensures timezoneOffset == None && durationToStartFromMidnight == 0
    {
      Enabled, Start, Duration, Timezone, Every := enabled, start, duration, timezone, every;
      timezoneOffset, durationToStartFromMidnight := None, 0;
    }

    predicate IsEnabled() {
      Enabled.None? || Enabled.value
    }

    /** Validation has succeeded, unless maintenance is disabled. */
    ghost predicate Validated()
      reads this
    {
      IsEnabled() ==>
        && ValidDays(Every) && 0 < Duration <= DAY && timezoneOffset.Some?
        && HhmmToDuration(Start) == Success(durationToStartFromMidnight) && ValidStart(durationToStartFromMidnight)
    }

    /** The zone database is a parameter: the offset it has for Timezone, if it has one. */
    method ValidateAndSetDefaults(zone: Option<int>) returns (err: Option<MaintenanceError>)
      modifies this
      ensures err == None ==> Validated()
      ensures err == None <==>
                IsEnabled() ==>
                  && ValidDays(Every) && HhmmToDuration(Start).Success? && 0 < Duration <= DAY
                  && (old(Timezone) == "" || zone.Some?)
      ensures IsEnabled() && err == None ==>
                && timezoneOffset == (if old(Timezone) == "" then Some(0) else zone)
                && Timezone == (if old(Timezone) == "" then "UTC" else old(Timezone))
    {
      if !IsEnabled() {
        return None;
      }
      for i := 0 to |Every|
        invariant forall k | 0 <= k < i :: Every[k] in LONG_DAY_NAMES
      {
        if Every[i] !in LONG_DAY_NAMES {
          return Some(InvalidDayName);
        }
      }
      var start := HhmmToDuration(Start);
      if start.Failure? {
        return Some(start.error);
      }
      HhmmIsValidStart(Start);
      durationToStartFromMidnight := start.value;
      if Duration <= 0 || Duration > 24 * HOUR {
        return Some(InvalidDuration);
      }
      if Timezone != "" {
        timezoneOffset := zone;
        if zone.None? {
          return Some(InvalidTimezone);
        }
      } else {
        Timezone := "UTC";
        timezoneOffset := Some(0);
      }
      return None;
    }

    /** The code's answer is right at every instant, but for the overlooked end of yesterday's window. */
    method IsUnderMaintenance(now: int) returns (r: bool)
      requires Validated()
      ensures !IsEnabled() ==> !r
      ensures IsEnabled() ==>
                var local := now + timezoneOffset.value;
                && (r ==> InSomeWindow(Every, durationToStartFromMidnight, Duration, local))
                && ((r <==> InSomeWindow(Every, durationToStartFromMidnight, Duration, local))
                    <==> !Overlooked(Every, durationToStartFromMidnight, Duration, local))
    {
      if !IsEnabled() {
        return false;
      }
      var local := now;
      if timezoneOffset.Some? {
        local := now + timezoneOffset.value;
      }
      var adjustedDate := DayOf(local);
      if HourOf(local) < durationToStartFromMidnight / HOUR {
        adjustedDate := adjustedDate - 1;
      }
      var hasMaintenanceEveryDay := |Every| == 0;
      var scheduled := Weekday(adjustedDate) in Every;
      AgreesUnlessOverlooked(Every, durationToStartFromMidnight, Duration, local);
      if !hasMaintenanceEveryDay && !scheduled {
        return false;
      }
      var startOfMaintenancePeriod := adjustedDate * DAY + durationToStartFromMidnight;
      var endOfMaintenancePeriod := startOfMaintenancePeriod + Duration;
      r := local > startOfMaintenancePeriod && local < endOfMaintenancePeriod;
      assert r ==> InWindowOf(adjustedDate, durationToStartFromMidnight, Duration, local);
    }
  }
}
