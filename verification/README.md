# Weekly workout weather report — a Dafny model

The program asks a weather API for the forecast from today up to and
including next Sunday. It keeps the workout hours 16:00–20:00 of the first
few days and mails a plain-text report, one block per day in date order.
This project models the pure part of `main.go`:

- `calculateRemainingDaysInWeek` (how many days to request);
- `getForecastForRemainingDaysOfWeek` (which days and hours to read, and the
  `"<Weekday> (<date>)"` labels and `"<text> <temp> °C"` summaries);
- `sortSliceByDateInParentheses` (ordering labels by the date in parentheses);
- `createEmailText` (the rendered email body, with `skyGlyphs`).

How the model stands in for the program:

- **Clock.** The current weekday is a parameter `wd` in 0..6 (`GoTime.Weekday`).
- **API response.** The decoded response is a typed value: a sequence of
  `Forecast.Day(date, hours)`. Each `Forecast.Hour(text, temp)` holds the
  condition text and the temperature already formatted as text.
- **Strings.** Go strings are byte strings. A Dafny `string` here is read
  as one character per byte, so " °C" is the four bytes `' ', 0xC2, 0xB0, 'C'`.
  The six-byte split in `createEmailText` is only right under that encoding,
  which the types do not enforce (see "Left out").
- **Map order.** Go map iteration order is not fixed. The key orders that
  `maps.Keys` hands over are parameters (`dayOrder`, `hourOrders`), each
  constrained to list every key once (`Report.Enumerates`). Lemmas show
  the text does not depend on them.
- **Fatal exits.** `log.Fatalf` in the comparator, and the slice panic on a
  summary shorter than six bytes, are a `Failure` carrying a
  `Report.Fatal` value.

Modules, one per file:

- `Wrappers`: Option and Result.
- `Collections`: distinct sequences and maps built from key/value lists.
- `GoStrings`: `strings.TrimSpace` and `strings.LastIndex`.
- `GoSort`: `sort.Strings`.
- `GoTime`: weekdays and `time.Parse("2006-01-02", …)`.
- `Forecast`: the day count and the extraction.
- `Report`: the sort by date and the rendering.
- `Pipeline`: the two composed, for a well-formed response.

The extraction comes twice: as written, and with the last index corrected
(see "## Findings"). The two build the same map on every weekday but
Friday, so the end-to-end result holds for the extraction as written on
those days. The six-byte split of a summary also comes twice: as written,
and cut after the separating space so that a temperature of any width
stays whole. `Pipeline` keeps to one- and two-byte temperatures, where the
two splits render the same line (`Report.HourLineFixedAgrees`).

## Model

| member | source | states |
|---|---|---|
| Forecast.RemainingDaysInWeek | main.go:248-251 | the requested day count is 8 − weekday; it lies in 2..8, is 8 exactly on Sunday and 2 exactly on Saturday |
| Forecast.WorkoutKeySeq | main.go:125-133 | the inner loop writes one distinct key per workout hour, the i-th being the "%d:00" key of hour 16 + i |
| Forecast.WorkoutKeysSpelled | main.go:29 | the keys written are exactly "16:00", "17:00", "18:00", "19:00", "20:00", in that order |
| Forecast.HourKeyInjective | main.go:133 | different two-digit hours never share a key, so no hour overwrites another |
| Forecast.LastForecastDay | main.go:110-113 | as written, the loop runs from today through today + 3, or Saturday and Sunday on a Saturday; the last index stays within the week (≤ 7) exactly when today is not Friday |
| Forecast.LastForecastDayFixed | main.go:110-113 | the corrected last index lies after today and by 7 at the latest, reading 4 days, or all the days left when fewer remain |
| Forecast.HourKeyReadsBack | main.go:133 | the key of a two-digit hour is two digits that read back as that hour, then ":00" |
| Forecast.HourValueSplits | main.go:126-131 | a summary splits back into its parts: the condition text, one space, the temperature, then " °C" |
| Forecast.WorkoutHourMap | main.go:122-134 | a day's hour map has exactly the workout-hour keys, and the key of hour 16 + i holds text + " " + temp + " °C" of `hour[16 + i]` |
| Forecast.Label | main.go:136 | the first two bytes of a label determine weekday i mod 7 |
| Forecast.LabelParts | main.go:136 | a label is the full name of weekday i mod 7 (which holds no space), then " (", the date and ")" |
| Forecast.DayLabelSeq | main.go:117-136 | the labels of the days read are pairwise distinct, the k-th naming weekday (wd + k) mod 7 and the date of `forecastday[k]` |
| Forecast.ExtractDays | main.go:117-139 | the extraction of n days has exactly n entries, keyed by the labels of loop indices wd..wd+n−1, each holding the hour map of the day read at that index |
| Forecast.ForecastForRemainingDaysOfWeek | main.go:104-142 | as written: 4 entries Sunday–Friday and 2 on Saturday, labelled for indices wd..lastForecastDay, each holding the hours of `forecastday[i − wd]` |
| Forecast.RequestedDaysSuffice | main.go:110-118 | when the response holds exactly the requested days, the reads stay in bounds if and only if today is not Friday |
| Forecast.FridayReadsPastForecast | main.go:117-118 | on Friday the loop reads index 3 of the 3-day array requested, out of bounds |
| Forecast.MidnightBetweenReads | main.go:249 | when midnight falls between the clock read that fixes the days requested (main.go:249, used at main.go:267) and the one that fixes the days read (main.go:109), the reads stay in bounds exactly when the days were requested on a day other than Saturday |
| Forecast.ForecastForRemainingDaysOfWeekFixed | main.go:110-113 | corrected extraction stopping at next Sunday: 4 entries Sunday–Thursday, 3 on Friday, 2 on Saturday, same labels and hour maps |
| Forecast.FixedReadsInBounds | main.go:117-118 | with the corrected last index, the requested days always suffice, on every weekday |
| Forecast.FixedAgreesExceptFriday | main.go:110-113 | the corrected last index equals the written one exactly on the weekdays other than Friday |
| Forecast.SameDayCount | main.go:117-139 | helper: the extraction depends only on how many days are read, so two ways of computing that count may be exchanged |
| Forecast.WrittenAgreesExceptFriday | main.go:110-113 | on every weekday but Friday, an extraction as written that stays in bounds builds the same map as the corrected one |
| Forecast.EarlyWeekStopsBeforeSaturday | main.go:110 | from Sunday to Tuesday the report ends before Saturday, so it never spans "today through Saturday" then |
| GoStrings.TrimSpace | main.go:171 | the trimmed text has no white space at either end, is a slice of the input starting at its first non-space byte, and everything cut away is white space |
| GoStrings.TrimSpacePadded | main.go:171 | trimming a text that has no white space at its ends, wrapped in any white space, gives that text back |
| GoStrings.TrimSpaceIdempotent | main.go:171 | trimming twice is trimming once |
| GoStrings.LastIndex | main.go:226-227 | −1 exactly when the byte does not occur, otherwise the position of its last occurrence |
| GoSort.LexLessTotal | main.go:164 | byte-wise string order is total: two different strings are ordered one way or the other |
| GoSort.LexLessTransitive | main.go:164 | byte-wise string order is transitive |
| GoSort.SortStrings | main.go:164 | `sort.Strings` returns a permutation of its input in non-decreasing byte order |
| GoSort.SortedStringsUnique | main.go:163-164 | two sorted permutations of the same strings are equal |
| GoSort.SortStringsIgnoresOrder | main.go:163-164 | the sorted hour keys do not depend on the order `maps.Keys` yields them in |
| GoTime.WeekdayName | main.go:136 | the name of a weekday ends in "day", and its first two bytes tell the weekday back |
| GoTime.DaysIn | main.go:228 | a month has 28 to 31 days, and February has 29 exactly in Gregorian leap years |
| GoTime.ParseDate | main.go:228 | a parsed date is a valid calendar date whose "YYYY-MM-DD" formatting is the input itself |
| GoTime.ParseFormatDate | main.go:228 | every valid date parses back from its own formatting |
| GoTime.ParseDateExact | main.go:228 | a string parses to a date exactly when it is that valid date's formatting |
| GoTime.ParsedDateHasNoParens | main.go:226-228 | a parseable date holds no parenthesis, so it cannot confuse the search for the last '(' and ')' |
| Report.DateInParentheses | main.go:225-235 | the `extract` closure yields only valid dates (when it yields d, and when it is fatal, is stated by `DateInParenthesesExact` and `MalformedDateUndated`) |
| Report.DateInParenthesesExact | main.go:225-235 | the closure yields d exactly when the last '(' comes before the last ')' and the text between them is d's "2006-01-02" formatting; reversed bounds or any other text are the fatal case |
| Report.MalformedDateUndated | main.go:228-232 | a label "<name> (<text>)" whose text is not a date is undated, so sorting it with another label is fatal, never a skipped day |
| Report.DateInParenthesesOfLabel | main.go:225-235 | a label built as "<name> (<date>)" yields that date back, whatever the name holds |
| Report.FirstUndated | main.go:230-232 | no label is reported exactly when every label carries a date, and a reported label is an undated one of the input |
| Report.SortDated | main.go:223-238 | labels that all carry dates sort to a permutation in non-decreasing date order |
| Report.SortByDate | main.go:222-241 | a lone label or none is returned unchanged; with two or more, success exactly when every label carries a date, giving a permutation in non-decreasing date order; a failure names an undated input label (a label with a malformed date is undated by `MalformedDateUndated`) |
| Report.SortedByDateUnique | main.go:222-241 | with no date repeated, the date-sorted arrangement of a set of labels is unique |
| Report.SortByDateIgnoresOrder | main.go:155-156 | the sorted day labels do not depend on the order `maps.Keys` yields them in, when no date repeats |
| Report.Glyph | main.go:172 | a text has a non-empty glyph exactly when `skyGlyphs` lists it, and then it is the listed glyph; any other text gets the empty string and no error |
| Report.RenderLineFields | main.go:174 | a line opens with two spaces, the hour key, ": ", the text and a space, then holds the text's glyph and a space, and closes with the temperature part in parentheses and a newline; its length is the parts' lengths plus the nine bytes of the format |
| Report.HourLine | main.go:166-174 | a summary shorter than six bytes is fatal for that day and hour, and only such a summary is |
| Report.HourLines | main.go:166-175 | a day's hour lines render exactly when every summary listed is at least six bytes long |
| Report.DayBlock | main.go:158-175 | a day's block renders exactly when all its summaries are at least six bytes long |
| Report.DayBlocks | main.go:158-176 | the blocks of the listed days render exactly when every summary of those days is at least six bytes long |
| Report.LongEnoughCovers | main.go:155-158 | checking the summaries of days listing every key checks the whole map |
| Report.CreateEmailText | main.go:153-180 | the body renders exactly when (at most one label, or every label carries a date) and every summary is at least six bytes long |
| Report.EnumerationsAgree | main.go:155 | two key orders of the same map are permutations of each other, and equal when there is at most one key |
| Report.DayBlockIgnoresHourOrder | main.go:161-164 | a day's block does not depend on the order its hour keys are handed over in |
| Report.EmailTextIgnoresIterationOrder | main.go:153-180 | success never depends on map iteration order, and the text does not either once labels are dated with distinct dates |
| Report.TempField | main.go:130-131 | a one- or two-byte temperature plus " °C" fills exactly the six-byte temperature part; a longer one gives its own length plus the four bytes of " °C" |
| Report.TempFieldEnds | main.go:130-131 | whatever padding precedes them, the temperature part ends with the temperature and " °C" |
| Report.HourLineSplit | main.go:168-174 | a summary of a condition part and a six-byte tail renders the tail as the temperature and the trimmed condition part as the text |
| Report.TrimmedConditionPart | main.go:126-133 | a summary built from an unpadded text and a one- or two-byte temperature splits into that text (with at most one space) and its temperature part, and trimming the first part gives the text back |
| Report.HourLineOfHour | main.go:168-174 | such a summary renders with the original condition text, its glyph and the padded temperature |
| Report.PaddedConditionSameGlyph | main.go:171-172 | white space around the condition text is trimmed before the lookup, so a padded text renders and finds its glyph as the bare text does |
| Report.LongTemperatureMisplit | main.go:168-169 | a three-byte temperature moves its first byte into the condition text |
| Report.FrostyHourMisplit | main.go:168-172 | "Sunny" at "-10" renders as "Sunny -" with no glyph and temperature "10 °C" |
| Report.TempCut | main.go:168-169 | the corrected cut leaves at least six bytes for the temperature part; when it cuts earlier than the six-byte cut, it cuts right after a space, and no space follows before " °C" |
| Report.HourLineFixed | main.go:166-174 | with the corrected cut, a summary shorter than six bytes is fatal for that day and hour, and only such a summary is |
| Report.LastSpaceSeparates | main.go:131 | in "<text> <temp>" with no space in the temperature, the last space is the one the builder wrote between them |
| Report.TempCutOfHour | main.go:168-169 | for a summary built from an hour, the corrected cut is the six-byte cut when the temperature has one or two bytes, and right after the separating space otherwise |
| Report.LongTemperatureFixed | main.go:168-174 | with the corrected cut, a temperature of three or more bytes renders whole, after the condition text as given |
| Report.HourLineFixedOfHour | main.go:168-174 | with the corrected cut, every temperature without a space renders whole, and the condition text keeps its glyph |
| Report.HourLineFixedAgrees | main.go:168-174 | for one- and two-byte temperatures, the corrected cut renders exactly what the six-byte cut does |
| Report.FrostyHourFixed | main.go:168-172 | with the corrected cut, "Sunny" at "-10" keeps its glyph and renders the temperature as "-10 °C" |
| Pipeline.DaysRead | main.go:117 | the corrected extraction reads 2 to 4 days, never more than were requested |
| Pipeline.HourKeysOrdered | main.go:133 | for two-digit hours, increasing hour gives increasing key in byte order |
| Pipeline.WorkoutKeysSorted | main.go:163-164 | the keys "16:00".."20:00" are already in `sort.Strings` order, so byte order is numeric hour order |
| Pipeline.SortedHourKeys | main.go:163-164 | sorting any order of a day's hour keys gives them in the order the inner loop wrote them |
| Pipeline.HourLinesMatch | main.go:166-174 | the lines rendered from the i-th workout hour on are the expected lines |
| Pipeline.DayBlockMatch | main.go:158-175 | the block of a well-formed day is its label line followed by the expected hour lines, in any key order |
| Pipeline.DayLabelDate | main.go:136 | the label of a day read carries that day's date |
| Pipeline.LabelsInDateOrder | main.go:136 | for a response in increasing date order, the labels in reading order are sorted by date with no date repeated |
| Pipeline.DaysSorted | main.go:155-156 | any key order of the extracted map sorts to the labels in reading order |
| Pipeline.DayBlocksMatch | main.go:158-176 | the blocks of the labels from the k-th on are the expected blocks |
| Pipeline.ExtractedDays | main.go:136-138 | the extracted map holds, under the label of each day read, that day's hour map |
| Pipeline.EmailTextOfResponse | main.go:153-180 | for a well-formed response, the body after the corrected extraction is the expected one, whatever the map iteration order |
| Pipeline.EmailTextOfWrittenResponse | main.go:104-180 | on every weekday but Friday, the body after the extraction as written is the expected one, whatever the map iteration order |
| Pipeline.WellFormedReadsInBounds | main.go:110-118 | a well-formed response keeps the extraction as written in bounds on every weekday but Friday |
| Collections.InsertPairs | main.go:133 | a map built from distinct keys and their values holds exactly those keys, each with its value |

## Left out

- `constructURL`: its output rests on `url.Values.Encode` escaping and key order, and on `%f` float formatting. Both are library behaviour, not logic of this program.
- `getForecastResult`, `sendEmail`, `main`: HTTP, SMTP, `.env` and environment loading, and JSON decoding. The response is the typed `seq<Day>` instead.
- `time.Now`: replaced by the weekday parameter.
- Forecast.RequestedDaysSuffice: the program reads the clock twice, at main.go:249 for the days requested and at main.go:109 for the days read. This lemma, `ForecastForRemainingDaysOfWeek` and `Pipeline` take one weekday for both, so they assume no midnight falls between the reads. `MidnightBetweenReads` states the other case: asked on Saturday and read on Sunday, the loop reads past the two days returned.
- `strconv.FormatFloat` of `temp_c` and the float coordinates: floating point. The temperature arrives as formatted text.
- The `fmt.Println` debug output is not part of the logic.
- Byte strings: a `string` stands for a Go byte string, one character per byte, but nothing forces its characters below 256. A character above 0xFF is one character here and several bytes in Go, so the six-byte split is modelled only for texts that keep to bytes.
- `strings.TrimSpace` trims Unicode white space. The model trims ASCII white space only.
- Forecast.ForecastForRemainingDaysOfWeek: an out-of-range index into `forecastday` or `hour` panics in Go. Here it is an explicit precondition (`ReadsInBounds`), and `RequestedDaysSuffice` says when it holds.
- The `int(currentDay) == 7` test on main.go:111 can never be true, since a weekday is 0..6. The model keeps it, and `Weekday` makes it dead.
- Report.SortByDate: when several labels lack a date, which one Go's comparator trips over first depends on `sort.Slice` internals. The model names the first undated label in input order. The contract promises only that the reported label is an undated one from the input.
- Report.EmailTextIgnoresIterationOrder: `sort.Slice` is not stable, so two labels with the same date can come out in either order. The text is promised to be order-independent only when no two labels share a date.
- Report.HourLine: only the length of a summary decides failure. A summary of six or more bytes that is not valid UTF-8 after the split is rendered byte for byte, as Go does.
- The glyph strings are written as the UTF-8 bytes of the intended emoji. The source file shows them garbled ("Â°", "â˜€ï¸"), and the six-byte split is right only if " °C" is the four bytes described above.
- The comment on `getForecastForRemainingDaysOfWeek` (main.go:95) promises each day "until the end of the week", which reads as today through Saturday. The code spans today through today + 3, or Saturday and Sunday on a Saturday. The model follows the code, and `EarlyWeekStopsBeforeSaturday` and `Forecast.ForecastForRemainingDaysOfWeek` state what it does.

## Findings

| source | as written | input that shows it | evidently intended | confidence | as-written member | corrected member |
|---|---|---|---|---|---|---|
| main.go:110-113 | `lastForecastDay = currentDay + 3` on every weekday but Saturday, while `calculateRemainingDaysInWeek` requests only `8 - currentDay` days | Friday (wd = 5): 3 days are requested, but the loop reads `forecastday[3]`, so the index is out of range and the program panics | read up to `min(currentDay + 3, 7)`, that is up to next Sunday, the last day requested | not executed | Forecast.FridayReadsPastForecast | Forecast.ForecastForRemainingDaysOfWeekFixed |
| main.go:168-169 | the temperature part is always the last six bytes of the summary, which fits only a one- or two-byte temperature plus " °C" | "Sunny" at "-10": the summary "Sunny -10 °C" splits into "Sunny -" and "10 °C", so the line shows the text "Sunny -" with no glyph and the temperature "10 °C" | cut right after the space that separates the condition text from the temperature, so the temperature part keeps every byte of the temperature | not executed | Report.FrostyHourMisplit | Report.HourLineFixedOfHour |
