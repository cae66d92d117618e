/** The whole pure pipeline of the program: the forecast for the rest of
    the week is extracted from the API response and rendered as the email
    body. For a response of consecutive dates whose condition texts carry no
    surrounding white space and whose temperatures have one or two bytes,
    the body is the one written out directly below, day by day in date
    order and hour by hour from "16:00" to "20:00", whatever order Go's maps
    hand over their keys in. */
module Pipeline {
  import opened Wrappers
  import opened GoStrings
  import opened GoSort
  import opened GoTime
  import opened Forecast
  import opened Report
  import opened Collections

  /** An hourly entry the split in `createEmailText` recovers: the text has
      no surrounding white space and `temp_c` rounds to one or two bytes
      ("7", "25", "-3"). */
  predicate WellFormedHour(h: Hour) {
    IsTrimmed(h.text) && 1 <= |h.temp| <= 2
  }

  /** A day with a parseable date and well-formed entries at every workout
      hour. */
  predicate WellFormedDay(day: Day) {
    && ParseDate(day.date).Some?
    && |day.hours| > LastWorkoutHour
    && forall i :: FirstWorkoutHour <= i <= LastWorkoutHour ==> WellFormedHour(day.hours[i])
  }

  /** The response holds exactly the requested days, each well formed, in
      strictly increasing date order. */
  predicate WellFormedResponse(wd: Weekday, forecast: seq<Day>) {
    && |forecast| == RemainingDaysInWeek(wd)
    && (forall k :: 0 <= k < |forecast| ==> WellFormedDay(forecast[k]))
    && forall i, j :: 0 <= i < j < |forecast| ==>
         DateBefore(ParseDate(forecast[i].date).value, ParseDate(forecast[j].date).value)
  }

  // ---------------------------------------------------------------------
  // The expected body

  /** The lines of the workout hours from the i-th on, under the given
      keys: the key, the condition text as the API gave it with its glyph,
      and the temperature padded to six bytes. */
  function ExpectedHourLines(day: Day, keys: seq<string>, i: nat): string
    requires WellFormedDay(day) && |keys| == LastWorkoutHour - FirstWorkoutHour + 1 && i <= |keys|
    decreases |keys| - i
  {
    if i == |keys| then ""
    else
      var h := day.hours[FirstWorkoutHour + i];
      RenderLine(keys[i], h.text, TempField(h.temp)) + ExpectedHourLines(day, keys, i + 1)
  }

  /** The blocks of the k-th label on: the label on a line of its own, then
      the hour lines of the day read under it. */
  function ExpectedBlocks(labels: seq<string>, forecast: seq<Day>, k: nat): string
    requires k <= |labels| <= |forecast|
    requires forall j :: 0 <= j < |labels| ==> WellFormedDay(forecast[j])
    decreases |labels| - k
  {
    if k == |labels| then ""
    else labels[k] + "\n" + ExpectedHourLines(forecast[k], WorkoutKeySeq(), 0) + ExpectedBlocks(labels, forecast, k + 1)
  }

  /** The expected body: one block per day read, in reading order. */
  function ExpectedBody(wd: Weekday, forecast: seq<Day>): string
    requires WellFormedResponse(wd, forecast)
  {
    ExpectedBlocks(DayLabelSeq(wd, DaysRead(wd), forecast), forecast, 0)
  }

  /** The number of days the corrected extraction reads. */
  function DaysRead(wd: Weekday): (n: nat)
    ensures 2 <= n <= 4 && n <= RemainingDaysInWeek(wd)
  {
    LastForecastDayFixed(wd) - wd + 1
  }

  // ---------------------------------------------------------------------
  // Hour keys

  /** Two-digit hours in increasing order give keys in increasing byte
      order. */
  lemma HourKeysOrdered(h1: nat, h2: nat)
    requires 10 <= h1 < h2 <= 99
    ensures LexLess(HourKey(h1), HourKey(h2))
  {
    var a, b := HourKey(h1), HourKey(h2);
    assert a[0] == DigitChar(h1 / 10) && b[0] == DigitChar(h2 / 10);
    if h1 / 10 == h2 / 10 {
      assert a[1..][0] == DigitChar(h1 % 10) && b[1..][0] == DigitChar(h2 % 10);
      assert LexLess(a[1..], b[1..]);
    }
  }

  /** The keys the inner loop writes are already in `sort.Strings` order. */
  lemma WorkoutKeysSorted()
    ensures StringsSorted(WorkoutKeySeq())
  {
    var s := WorkoutKeySeq();
    forall i, j | 0 <= i < j < |s| ensures LexLe(s[i], s[j]) {
      HourKeysOrdered(FirstWorkoutHour + i, FirstWorkoutHour + j);
      LexLessAsymmetric(s[i], s[j]);
    }
  }

  /** Sorting any enumeration of a day's hour keys gives the keys in the
      order the inner loop wrote them. */
  lemma SortedHourKeys(day: Day, hourOrder: seq<string>)
    requires |day.hours| > LastWorkoutHour
    requires Enumerates(hourOrder, WorkoutHourMap(day))
    ensures SortStrings(hourOrder) == WorkoutKeySeq()
  {
    SameMembersSameMultiset(hourOrder, WorkoutKeySeq());
    WorkoutKeysSorted();
    SortedStringsUnique(SortStrings(hourOrder), WorkoutKeySeq());
  }

  // ---------------------------------------------------------------------
  // One day

  /** From the i-th workout hour on, the rendered lines are the expected
      ones. */
  lemma {:induction false} HourLinesMatch(dayLabel: string, day: Day, keys: seq<string>, hm: HourMap, i: nat)
    requires WellFormedDay(day) && |keys| == LastWorkoutHour - FirstWorkoutHour + 1 && i <= |keys|
    requires forall j :: 0 <= j < |keys| ==> keys[j] in hm && hm[keys[j]] == HourValue(day.hours[FirstWorkoutHour + j])
    ensures forall j :: 0 <= j < |keys[i..]| ==> keys[i..][j] in hm
    ensures HourLines(dayLabel, keys[i..], hm) == Success(ExpectedHourLines(day, keys, i))
    decreases |keys| - i
  {
    assert forall j :: 0 <= j < |keys[i..]| ==> keys[i..][j] == keys[i + j];
    if i < |keys| {
      HourLinesMatch(dayLabel, day, keys, hm, i + 1);
      HourLineOfHour(dayLabel, keys[i], day.hours[FirstWorkoutHour + i]);
      assert keys[i..][1..] == keys[i + 1..];
    }
  }

  /** The block of one well-formed day, whatever order its hour keys come
      in. */
  lemma DayBlockMatch(dayLabel: string, day: Day, hourOrder: seq<string>)
    requires WellFormedDay(day)
    requires Enumerates(hourOrder, WorkoutHourMap(day))
    ensures DayBlock(dayLabel, WorkoutHourMap(day), hourOrder)
         == Success(dayLabel + "\n" + ExpectedHourLines(day, WorkoutKeySeq(), 0))
  {
    SortedHourKeys(day, hourOrder);
    HourLinesMatch(dayLabel, day, WorkoutKeySeq(), WorkoutHourMap(day), 0);
    assert WorkoutKeySeq()[0..] == WorkoutKeySeq();
  }

  // ---------------------------------------------------------------------
  // The days

  /** The label of a day read carries that day's date. */
  lemma DayLabelDate(wd: Weekday, k: nat, forecast: seq<Day>)
    requires k < |forecast| && ParseDate(forecast[k].date).Some?
    ensures Dated(DayLabel(wd, k, forecast))
    ensures DateOf(DayLabel(wd, k, forecast)) == ParseDate(forecast[k].date).value
  {
    DateInParenthesesOfLabel(WeekdayName((wd + k) % 7), forecast[k].date);
  }

  /** The labels of the days read, in reading order, are sorted by date
      with no date repeated. */
  lemma LabelsInDateOrder(wd: Weekday, forecast: seq<Day>)
    requires WellFormedResponse(wd, forecast)
    ensures var s := DayLabelSeq(wd, DaysRead(wd), forecast);
            AllDated(s) && SortedByDate(s) && DistinctDates(s)
  {
    var n := DaysRead(wd);
    var s := DayLabelSeq(wd, n, forecast);
    forall k | 0 <= k < n ensures Dated(s[k]) && DateOf(s[k]) == ParseDate(forecast[k].date).value {
      DayLabelDate(wd, k, forecast);
    }
  }

  /** Any enumeration of the extracted map sorts to the labels in reading
      order. */
  lemma DaysSorted(wd: Weekday, forecast: seq<Day>, dayOrder: seq<string>)
    requires WellFormedResponse(wd, forecast)
    requires Enumerates(dayOrder, ForecastForRemainingDaysOfWeekFixed(wd, forecast))
    ensures SortByDate(dayOrder) == Success(DayLabelSeq(wd, DaysRead(wd), forecast))
  {
    var labels := DayLabelSeq(wd, DaysRead(wd), forecast);
    LabelsInDateOrder(wd, forecast);
    SameMembersSameMultiset(labels, dayOrder);
    PermutationDated(labels, dayOrder);
    assert |dayOrder| == |labels| by {
      assert |dayOrder| == |multiset(dayOrder)| && |labels| == |multiset(labels)|;
    }
    SortByDateOfDated(dayOrder);
    SortedByDateUnique(labels, SortDated(dayOrder));
  }

  /** One step of `DayBlocks`: the first block followed by the rest. */
  lemma DayBlocksStep(days: seq<string>, m: Forecasts, hourOrders: map<string, seq<string>>,
                      block: string, rest: string)
    requires days != [] && (forall j :: 0 <= j < |days| ==> days[j] in m) && HourOrdersFor(m, hourOrders)
    requires DayBlock(days[0], m[days[0]], hourOrders[days[0]]) == Success(block)
    requires DayBlocks(days[1..], m, hourOrders) == Success(rest)
    ensures DayBlocks(days, m, hourOrders) == Success(block + rest)
  {
  }

  /** From the k-th label on, the rendered blocks are the expected ones. */
  lemma {:induction false} DayBlocksMatch(labels: seq<string>, forecast: seq<Day>, k: nat,
                                          m: Forecasts, hourOrders: map<string, seq<string>>)
    requires k <= |labels| <= |forecast|
    requires forall j :: 0 <= j < |labels| ==>
               WellFormedDay(forecast[j]) && labels[j] in m && m[labels[j]] == WorkoutHourMap(forecast[j])
    requires HourOrdersFor(m, hourOrders)
    ensures forall j :: 0 <= j < |labels[k..]| ==> labels[k..][j] in m
    ensures DayBlocks(labels[k..], m, hourOrders) == Success(ExpectedBlocks(labels, forecast, k))
    decreases |labels| - k
  {
    var days := labels[k..];
    assert forall j :: 0 <= j < |days| ==> days[j] == labels[k + j];
    if k < |labels| {
      DayBlocksMatch(labels, forecast, k + 1, m, hourOrders);
      assert days[1..] == labels[k + 1..];
      var day := labels[k];
      var block := day + "\n" + ExpectedHourLines(forecast[k], WorkoutKeySeq(), 0);
      var rest := ExpectedBlocks(labels, forecast, k + 1);
      assert DayBlock(days[0], m[days[0]], hourOrders[days[0]]) == Success(block) by {
        assert days[0] == day && m[day] == WorkoutHourMap(forecast[k]);
        DayBlockMatch(day, forecast[k], hourOrders[day]);
      }
      assert DayBlocks(days[1..], m, hourOrders) == Success(rest);
      DayBlocksStep(days, m, hourOrders, block, rest);
    }
  }

  /** The extracted map holds, under the label of each day read, that
      day's workout hours. */
  lemma ExtractedDays(wd: Weekday, forecast: seq<Day>)
    requires WellFormedResponse(wd, forecast)
    ensures var m := ForecastForRemainingDaysOfWeekFixed(wd, forecast);
            var labels := DayLabelSeq(wd, DaysRead(wd), forecast);
            forall j :: 0 <= j < |labels| ==>
              WellFormedDay(forecast[j]) && labels[j] in m && m[labels[j]] == WorkoutHourMap(forecast[j])
  {
  }

  /** Once the labels are sorted, the body is the blocks of the sorted
      labels. */
  lemma EmailTextOfSortedDays(m: Forecasts, dayOrder: seq<string>, hourOrders: map<string, seq<string>>,
                              days: seq<string>)
    requires Enumerates(dayOrder, m) && HourOrdersFor(m, hourOrders)
    requires SortByDate(dayOrder) == Success(days)
    requires forall j :: 0 <= j < |days| ==> days[j] in m
    ensures CreateEmailText(m, dayOrder, hourOrders) == DayBlocks(days, m, hourOrders)
  {
  }

  /** The email body of a well-formed response, after the corrected
      extraction, is the expected body, whatever order the maps hand over
      their keys in. */
  lemma EmailTextOfResponse(wd: Weekday, forecast: seq<Day>,
                            dayOrder: seq<string>, hourOrders: map<string, seq<string>>)
    requires WellFormedResponse(wd, forecast)
    requires Enumerates(dayOrder, ForecastForRemainingDaysOfWeekFixed(wd, forecast))
    requires HourOrdersFor(ForecastForRemainingDaysOfWeekFixed(wd, forecast), hourOrders)
    ensures CreateEmailText(ForecastForRemainingDaysOfWeekFixed(wd, forecast), dayOrder, hourOrders)
         == Success(ExpectedBody(wd, forecast))
  {
    var m := ForecastForRemainingDaysOfWeekFixed(wd, forecast);
    var labels := DayLabelSeq(wd, DaysRead(wd), forecast);
    DaysSorted(wd, forecast, dayOrder);
    ExtractedDays(wd, forecast);
    DayBlocksMatch(labels, forecast, 0, m, hourOrders);
    assert labels[0..] == labels;
    EmailTextOfSortedDays(m, dayOrder, hourOrders, labels);
  }

  /** On every weekday but Friday the extraction as written reads the same
      days, so `createEmailText` composed with it renders the expected body
      too, whatever order the maps hand over their keys in. */
  lemma EmailTextOfWrittenResponse(wd: Weekday, forecast: seq<Day>,
                                   dayOrder: seq<string>, hourOrders: map<string, seq<string>>)
    requires wd != Friday && WellFormedResponse(wd, forecast)
    requires ReadsInBounds(wd, LastForecastDay(wd), forecast)
    requires Enumerates(dayOrder, ForecastForRemainingDaysOfWeek(wd, forecast))
    requires HourOrdersFor(ForecastForRemainingDaysOfWeek(wd, forecast), hourOrders)
    ensures CreateEmailText(ForecastForRemainingDaysOfWeek(wd, forecast), dayOrder, hourOrders)
         == Success(ExpectedBody(wd, forecast))
  {
    WrittenAgreesExceptFriday(wd, forecast);
    EmailTextOfResponse(wd, forecast, dayOrder, hourOrders);
  }

  /** A well-formed response on any weekday but Friday keeps the extraction
      as written in bounds. */
  lemma WellFormedReadsInBounds(wd: Weekday, forecast: seq<Day>)
    requires wd != Friday && WellFormedResponse(wd, forecast)
    ensures ReadsInBounds(wd, LastForecastDay(wd), forecast)
  {
    RequestedDaysSuffice(wd, forecast);
  }
}
