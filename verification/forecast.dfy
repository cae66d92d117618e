/** Extraction of the workout-hour forecast for the rest of the week
    (`calculateRemainingDaysInWeek` and `getForecastForRemainingDaysOfWeek`).
    The current weekday is a parameter instead of a clock reading, and the
    decoded API response is a typed value. */
module Forecast {
  import opened GoTime
  import opened Collections

  /** One hourly entry of the API response: `condition.text` and `temp_c`,
      the temperature already formatted as text. */
  datatype Hour = Hour(text: string, temp: string)

  /** One element of `forecast.forecastday`: its date string and its hours. */
  datatype Day = Day(date: string, hours: seq<Hour>)

  /** Workout hour ("16:00") to summary ("Sunny 25 °C"). */
  type HourMap = map<string, string>

  /** Day label ("Monday (2025-06-02)") to that day's workout hours. */
  type Forecasts = map<string, HourMap>

  /** `workoutHours`. */
  const WorkoutHours: seq<nat> := [16, 17, 18, 19, 20]
  const FirstWorkoutHour: nat := WorkoutHours[0]
  const LastWorkoutHour: nat := WorkoutHours[|WorkoutHours| - 1]

  /** The bytes of " °C": a space, the two UTF-8 bytes of U+00B0, and 'C'. */
  const DegreeCelsius: string := " \U{C2}\U{B0}C"

  /** `calculateRemainingDaysInWeek`: the number of forecast days to request,
      today included, up to and including next Sunday. */
  function RemainingDaysInWeek(wd: Weekday): (n: int)
    ensures n + wd == 8
    ensures 2 <= n <= 8
    ensures n == 8 <==> wd == Sunday
    ensures n == 2 <==> wd == Saturday
  {
    8 - wd % 7
  }

  /** The last loop index of `getForecastForRemainingDaysOfWeek`, as written:
      three days past today, except on Saturday (or the impossible weekday 7),
      where it stops at index 7, the following Sunday. */
  function LastForecastDay(wd: Weekday): (r: int)
    ensures wd < r && r - wd + 1 == (if wd == Saturday then 2 else 4)
    ensures r <= 7 <==> wd != Friday
  {
    if wd == 6 || wd == 7 then 7 else wd + 3
  }

  /** The evidently intended last loop index: three days past today, but
      never past the following Sunday, the last day requested. */
  function LastForecastDayFixed(wd: Weekday): (r: int)
    ensures wd < r <= 7 && r - wd + 1 == (if RemainingDaysInWeek(wd) >= 4 then 4 else RemainingDaysInWeek(wd))
  {
    if wd + 3 > 7 then 7 else wd + 3
  }

  /** `fmt.Sprintf("%d:00", h)` for a two-digit hour. */
  function HourKey(h: nat): (k: string)
    requires 10 <= h <= 99
  {
    [DigitChar(h / 10), DigitChar(h % 10)] + ":00"
  }

  /** A key reads back as its hour: two digits giving the hour, then ":00". */
  lemma HourKeyReadsBack(h: nat)
    requires 10 <= h <= 99
    ensures var k := HourKey(h);
            |k| == 5 && IsDigit(k[0]) && IsDigit(k[1]) && k[2..] == ":00" && Number2(k[0], k[1]) == h
  {
  }

  /** Two-digit hours give distinct keys. */
  lemma HourKeyInjective(h1: nat, h2: nat)
    requires 10 <= h1 <= 99 && 10 <= h2 <= 99 && h1 != h2
    ensures HourKey(h1) != HourKey(h2)
  {
    assert HourKey(h1)[0] == DigitChar(h1 / 10) && HourKey(h1)[1] == DigitChar(h1 % 10);
    assert HourKey(h2)[0] == DigitChar(h2 / 10) && HourKey(h2)[1] == DigitChar(h2 % 10);
  }

  /** The summary stored for one hour: the condition text, a space, the
      temperature, and " °C". */
  function HourValue(h: Hour): (v: string)
  {
    h.text + " " + h.temp + DegreeCelsius
  }

  /** The summary of an hour splits back into its condition text and its
      temperature: the text, one space, the temperature, then " °C". */
  lemma HourValueSplits(h: Hour)
    ensures var v := HourValue(h);
            && |v| == |h.text| + |h.temp| + 5
            && v[..|h.text|] == h.text && v[|h.text|] == ' '
            && v[|h.text| + 1..|v| - |DegreeCelsius|] == h.temp && v[|v| - |DegreeCelsius|..] == DegreeCelsius
  {
  }

  /** The keys the inner loop writes, hour by hour from the first workout
      hour to the last. */
  function WorkoutKeySeq(): (s: seq<string>)
    ensures |s| == LastWorkoutHour - FirstWorkoutHour + 1 && Distinct(s)
    ensures forall i :: 0 <= i < |s| ==> s[i] == HourKey(FirstWorkoutHour + i)
  {
    var s := seq(LastWorkoutHour - FirstWorkoutHour + 1,
                 i requires 0 <= i <= LastWorkoutHour - FirstWorkoutHour => HourKey(FirstWorkoutHour + i));
    assert Distinct(s) by {
      forall i, j | 0 <= i < j < |s| ensures s[i] != s[j] {
        HourKeyInjective(FirstWorkoutHour + i, FirstWorkoutHour + j);
      }
    }
    s
  }

  /** The workout hours format to "16:00" through "20:00", in order. */
  lemma WorkoutKeysSpelled()
    ensures WorkoutKeySeq() == ["16:00", "17:00", "18:00", "19:00", "20:00"]
  {
    var s := WorkoutKeySeq();
    assert FirstWorkoutHour == 16 && LastWorkoutHour == 20;
    assert |s| == 5;
    assert s[0] == HourKey(16) == "16:00";
    assert s[1] == HourKey(17) == "17:00";
    assert s[2] == HourKey(18) == "18:00";
    assert s[3] == HourKey(19) == "19:00";
    assert s[4] == HourKey(20) == "20:00";
  }

  /** The inner loop of `getForecastForRemainingDaysOfWeek` for one day:
      exactly the keys "16:00".."20:00", the key of workout hour h holding
      the summary of the day's h-th hourly entry. */
  function WorkoutHourMap(day: Day): (m: HourMap)
    requires |day.hours| > LastWorkoutHour
    ensures forall key :: key in m <==> key in WorkoutKeySeq()
    ensures forall i :: 0 <= i < |WorkoutKeySeq()| ==>
              m[WorkoutKeySeq()[i]] == HourValue(day.hours[FirstWorkoutHour + i])
  {
    var keys := WorkoutKeySeq();
    var values := seq(|keys|, i requires 0 <= i < |keys| => HourValue(day.hours[FirstWorkoutHour + i]));
    InsertPairs(keys, values)
  }

  /** `"<Weekday> (<date>)"` for loop index i. Its first two bytes tell the
      weekday back. */
  function Label(i: nat, date: string): (l: string)
    ensures |l| >= 2 && WeekdayOfPrefix(l[0], l[1]) == i % 7
  {
    WeekdayName(i % 7) + " (" + date + ")"
  }

  /** A label is the full name of weekday i mod 7, which holds no space,
      followed by " (", the date and ")". */
  lemma LabelParts(i: nat, date: string)
    ensures var name := WeekdayName(i % 7);
            var l := Label(i, date);
            && ' ' !in name
            && |l| == |name| + |date| + 3
            && l[..|name|] == name
            && l[|name|..] == " (" + date + ")"
  {
  }

  /** Indices less than a week apart fall on different weekdays. */
  lemma WithinAWeek(i: nat, j: nat)
    requires i < j < i + 7
    ensures i % 7 != j % 7
  {
    var q := i / 7;
    assert i == 7 * q + i % 7;
    assert j == 7 * (j / 7) + j % 7;
    assert j / 7 == q || j / 7 == q + 1;
  }

  /** Every read of the extraction loop from today to `last` is in bounds:
      `forecastday[0..last - wd]` exists and each of those days has an
      hourly entry at every workout hour. */
  predicate ReadsInBounds(wd: Weekday, last: int, forecast: seq<Day>) {
    && last - wd < |forecast|
    && forall k :: 0 <= k <= last - wd ==> |forecast[k].hours| > LastWorkoutHour
  }

  /** The label of the k-th day read, which is loop index today + k. */
  function DayLabel(wd: Weekday, k: nat, forecast: seq<Day>): (l: string)
    requires k < |forecast|
    ensures |l| >= 2 && WeekdayOfPrefix(l[0], l[1]) == (wd + k) % 7
  {
    Label(wd + k, forecast[k].date)
  }

  /** Labels naming the weekdays of consecutive loop indices, at most a
      week of them, differ. */
  lemma WeekdaysDistinguish(wd: Weekday, s: seq<string>)
    requires |s| <= 7
    requires forall k :: 0 <= k < |s| ==> |s[k]| >= 2 && WeekdayOfPrefix(s[k][0], s[k][1]) == (wd + k) % 7
    ensures Distinct(s)
  {
    forall i, j | 0 <= i < j < |s| ensures s[i] != s[j] {
      WithinAWeek(wd + i, wd + j);
    }
  }

  /** The labels of the first n days read, in loop order. */
  function DayLabelSeq(wd: Weekday, n: nat, forecast: seq<Day>): (s: seq<string>)
    requires n <= |forecast| && n <= 7
    ensures |s| == n && Distinct(s)
    ensures forall k :: 0 <= k < n ==> s[k] == DayLabel(wd, k, forecast)
  {
    var s := seq(n, k requires 0 <= k < n => DayLabel(wd, k, forecast));
    WeekdaysDistinguish(wd, s);
    s
  }

  /** The workout-hour maps of the first n days read, in loop order. */
  function DayMaps(wd: Weekday, n: nat, forecast: seq<Day>): (s: seq<HourMap>)
    requires ReadsInBounds(wd, wd + n - 1, forecast)
    ensures |s| == n
    ensures forall k :: 0 <= k < n ==> s[k] == WorkoutHourMap(forecast[k])
  {
    seq(n, k requires 0 <= k < n => WorkoutHourMap(forecast[k]))
  }

  /** The outer loop of `getForecastForRemainingDaysOfWeek` over the first n
      days read (loop indices today .. today + n - 1): one label per index,
      each holding the workout-hour map of `forecastday[index - today]`. */
  function ExtractDays(wd: Weekday, n: nat, forecast: seq<Day>): (m: Forecasts)
    requires n <= 7 && ReadsInBounds(wd, wd + n - 1, forecast)
    ensures |m| == n
    ensures forall key :: key in m <==> key in DayLabelSeq(wd, n, forecast)
    ensures forall k :: 0 <= k < n ==>
              DayLabel(wd, k, forecast) in m && m[DayLabel(wd, k, forecast)] == WorkoutHourMap(forecast[k])
  {
    var labels := DayLabelSeq(wd, n, forecast);
    var m := InsertPairs(labels, DayMaps(wd, n, forecast));
    MapSizeOfKeys(m, labels);
    m
  }

  /** `getForecastForRemainingDaysOfWeek` as written, for a response whose
      reads are all in bounds (otherwise the Go program panics): one entry
      per loop index from today to `LastForecastDay`, labelled with the
      weekday of the index and the date of the day read. */
  function ForecastForRemainingDaysOfWeek(wd: Weekday, forecast: seq<Day>): (m: Forecasts)
    requires ReadsInBounds(wd, LastForecastDay(wd), forecast)
    ensures |m| == (if wd == Saturday then 2 else 4)
    ensures forall key :: key in m <==> key in DayLabelSeq(wd, LastForecastDay(wd) - wd + 1, forecast)
    ensures forall k :: 0 <= k <= LastForecastDay(wd) - wd ==>
              DayLabel(wd, k, forecast) in m
              && m[DayLabel(wd, k, forecast)] == WorkoutHourMap(forecast[k])
  {
    ExtractDays(wd, LastForecastDay(wd) - wd + 1, forecast)
  }

  /** The extraction with the evidently intended last index: it stops at the
      following Sunday, so it reads only the days that were requested. */
  function ForecastForRemainingDaysOfWeekFixed(wd: Weekday, forecast: seq<Day>): (m: Forecasts)
    requires ReadsInBounds(wd, LastForecastDayFixed(wd), forecast)
    ensures |m| == (if wd == Friday then 3 else if wd == Saturday then 2 else 4)
    ensures forall key :: key in m <==> key in DayLabelSeq(wd, LastForecastDayFixed(wd) - wd + 1, forecast)
    ensures forall k :: 0 <= k <= LastForecastDayFixed(wd) - wd ==>
              DayLabel(wd, k, forecast) in m
              && m[DayLabel(wd, k, forecast)] == WorkoutHourMap(forecast[k])
  {
    ExtractDays(wd, LastForecastDayFixed(wd) - wd + 1, forecast)
  }

  /** Every day of the response has an entry for every workout hour. */
  predicate HasWorkoutHours(forecast: seq<Day>) {
    forall k :: 0 <= k < |forecast| ==> |forecast[k].hours| > LastWorkoutHour
  }

  /** When the API returns exactly the requested number of days, the
      extraction as written stays in bounds on every weekday but Friday. */
  lemma RequestedDaysSuffice(wd: Weekday, forecast: seq<Day>)
    requires |forecast| == RemainingDaysInWeek(wd) && HasWorkoutHours(forecast)
    ensures ReadsInBounds(wd, LastForecastDay(wd), forecast) <==> wd != Friday
  {
  }

  /** On Friday three days are requested but the loop reads
      `forecastday[3]`, a fourth. */
  lemma FridayReadsPastForecast(forecast: seq<Day>)
    requires |forecast| == RemainingDaysInWeek(Friday)
    ensures LastForecastDay(Friday) - Friday == |forecast|
    ensures !ReadsInBounds(Friday, LastForecastDay(Friday), forecast)
  {
  }

  /** The clock is read twice: once for the number of days requested and
      once for the loop bounds. When midnight falls between the two reads,
      the loop runs on the next weekday; the requested days then fall short
      exactly when they were requested on a Saturday. */
  lemma MidnightBetweenReads(asked: Weekday, forecast: seq<Day>)
    requires |forecast| == RemainingDaysInWeek(asked) && HasWorkoutHours(forecast)
    ensures var today: Weekday := (asked + 1) % 7;
            ReadsInBounds(today, LastForecastDay(today), forecast) <==> asked != Saturday
  {
  }

  /** With the corrected last index the requested days always suffice. */
  lemma FixedReadsInBounds(wd: Weekday, forecast: seq<Day>)
    requires |forecast| == RemainingDaysInWeek(wd) && HasWorkoutHours(forecast)
    ensures ReadsInBounds(wd, LastForecastDayFixed(wd), forecast)
  {
  }

  /** The corrected extraction differs from the written one only in its
      last index, and that index agrees on every weekday but Friday. */
  lemma FixedAgreesExceptFriday(wd: Weekday)
    ensures LastForecastDayFixed(wd) == LastForecastDay(wd) <==> wd != Friday
  {
  }

  /** The extraction depends on the number of days read, not on how that
      number was computed. */
  lemma SameDayCount(wd: Weekday, n1: nat, n2: nat, forecast: seq<Day>)
    requires n1 == n2 && n1 <= 7 && ReadsInBounds(wd, wd + n1 - 1, forecast)
    ensures ExtractDays(wd, n1, forecast) == ExtractDays(wd, n2, forecast)
  {
  }

  /** On every weekday but Friday the extraction as written and the
      corrected one read the same days and build the same map. */
  lemma WrittenAgreesExceptFriday(wd: Weekday, forecast: seq<Day>)
    requires wd != Friday && ReadsInBounds(wd, LastForecastDay(wd), forecast)
    ensures ReadsInBounds(wd, LastForecastDayFixed(wd), forecast)
    ensures ForecastForRemainingDaysOfWeek(wd, forecast) == ForecastForRemainingDaysOfWeekFixed(wd, forecast)
  {
    FixedAgreesExceptFriday(wd);
    SameDayCount(wd, LastForecastDay(wd) - wd + 1, LastForecastDayFixed(wd) - wd + 1, forecast);
  }

  /** From Sunday to Tuesday the report stops before Saturday. */
  lemma EarlyWeekStopsBeforeSaturday(wd: Weekday)
    requires wd <= 2
    ensures LastForecastDay(wd) < Saturday
  {
  }
}
