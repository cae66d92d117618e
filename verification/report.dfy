/** Rendering of the email body: `sortSliceByDateInParentheses` and
    `createEmailText`. Go's map iteration order is not fixed, so the order in
    which `maps.Keys` hands over the keys is a parameter (an enumeration of
    the map's keys); the lemmas show the text does not depend on it. */
module Report {
  import opened Wrappers
  import opened GoStrings
  import opened GoSort
  import opened GoTime
  import opened Forecast
  import opened Collections

  /** The two ways rendering ends the process. */
  datatype Fatal =
    | MalformedDate(dayLabel: string)
    | ValueTooShort(day: string, hour: string)

  /** `xs` lists every key of a Go map exactly once, as `maps.Keys` does. */
  ghost predicate Enumerates<K(!new), V>(xs: seq<K>, m: map<K, V>) {
    Distinct(xs) && forall k :: k in m <==> k in xs
  }

  // ---------------------------------------------------------------------
  // sortSliceByDateInParentheses

  /** The `extract` closure: parses the text between the last '(' and the
      last ')' with the layout "2006-01-02". None stands for the fatal exit,
      whether the slice bounds are reversed (a missing ')' or a ')' before
      the last '(') or the text is not a valid date. */
  function DateInParentheses(s: string): (r: Option<Date>)
    ensures r.Some? ==> ValidDate(r.value)
  {
    var start := LastIndex(s, '(') + 1;
    var end := LastIndex(s, ')');
    if end < start then None else ParseDate(s[start..end])
  }

  /** A label built as "<name> (<date>)" yields its date back, whatever the
      name holds. */
  lemma DateInParenthesesOfLabel(name: string, date: string)
    requires ParseDate(date).Some?
    ensures DateInParentheses(name + " (" + date + ")") == ParseDate(date)
  {
    var s := name + " (" + date + ")";
    var p := |name| + 1;
    ParsedDateHasNoParens(date);
    assert s[p] == '(' && s[|s| - 1] == ')';
    assert forall k :: p < k < |s| - 1 ==> s[k] == date[k - p - 1];
    assert LastIndex(s, '(') == p;
    assert LastIndex(s, ')') == |s| - 1;
    assert s[p + 1..|s| - 1] == date;
  }

  /** The `extract` closure yields d exactly when the last '(' comes before
      the last ')' and the text between them is d's "2006-01-02" formatting;
      anything else is the fatal case. */
  lemma DateInParenthesesExact(s: string, d: Date)
    ensures DateInParentheses(s) == Some(d)
            <==> LastIndex(s, '(') < LastIndex(s, ')') && ValidDate(d)
                 && FormatDate(d) == s[LastIndex(s, '(') + 1..LastIndex(s, ')')]
  {
    if LastIndex(s, '(') < LastIndex(s, ')') {
      ParseDateExact(s[LastIndex(s, '(') + 1..LastIndex(s, ')')], d);
    }
  }

  /** A label "<name> (<text>)" whose text is not a date is undated: the
      fatal case, never a silently skipped day. */
  lemma MalformedDateUndated(name: string, text: string)
    requires '(' !in text && ')' !in text && ParseDate(text).None?
    ensures DateInParentheses(name + " (" + text + ")").None?
  {
    var s := name + " (" + text + ")";
    var p := |name| + 1;
    assert s[p] == '(' && s[|s| - 1] == ')';
    assert forall k :: p < k < |s| - 1 ==> s[k] == text[k - p - 1];
    assert LastIndex(s, '(') == p;
    assert LastIndex(s, ')') == |s| - 1;
    assert s[p + 1..|s| - 1] == text;
  }

  predicate Dated(s: string) {
    DateInParentheses(s).Some?
  }

  function DateOf(s: string): Date
    requires Dated(s)
  {
    DateInParentheses(s).value
  }

  predicate AllDated(s: seq<string>) {
    forall i :: 0 <= i < |s| ==> Dated(s[i])
  }

  /** Non-decreasing by embedded date. */
  predicate SortedByDate(s: seq<string>)
    requires AllDated(s)
  {
    forall i, j :: 0 <= i < j < |s| ==> !DateBefore(DateOf(s[j]), DateOf(s[i]))
  }

  /** No two labels carry the same date. */
  predicate DistinctDates(s: seq<string>)
    requires AllDated(s)
  {
    forall i, j :: 0 <= i < j < |s| ==> DateOf(s[i]) != DateOf(s[j])
  }

  /** The date of a label, with a placeholder for one that has none; the
      sort only ever sees dated labels. */
  function DateKey(s: string): (d: Date)
    ensures Dated(s) ==> d == DateOf(s)
  {
    match DateInParentheses(s)
    case Some(d) => d
    case None => Date(0, 1, 1)
  }

  /** Non-decreasing under a date key. */
  predicate SortedBy(s: seq<string>, key: string -> Date) {
    forall i, j :: 0 <= i < j < |s| ==> !DateBefore(key(s[j]), key(s[i]))
  }

  /** A sorted sequence stays sorted under a head no later than any of it. */
  lemma SortedByCons(h: string, t: seq<string>, key: string -> Date)
    requires SortedBy(t, key) && forall j :: 0 <= j < |t| ==> !DateBefore(key(t[j]), key(h))
    ensures SortedBy([h] + t, key)
  {
    forall i, j | 0 <= i < j < |t| + 1 ensures !DateBefore(key(([h] + t)[j]), key(([h] + t)[i])) {
      if i > 0 { assert ([h] + t)[i] == t[i - 1]; }
      assert ([h] + t)[j] == t[j - 1];
    }
  }

  lemma SortedByTail(s: seq<string>, key: string -> Date)
    requires s != [] && SortedBy(s, key)
    ensures SortedBy(s[1..], key)
  {
    assert forall i :: 0 <= i < |s| - 1 ==> s[1..][i] == s[i + 1];
  }

  /** Inserts a label into a sorted sequence, before the first label whose
      date is not earlier. */
  function InsertBy(x: string, xs: seq<string>, key: string -> Date): (r: seq<string>)
    requires SortedBy(xs, key)
    ensures multiset(r) == multiset(xs) + multiset{x}
    ensures SortedBy(r, key)
  {
    if xs == [] || !DateBefore(key(xs[0]), key(x)) then
      SortedByCons(x, xs, key);
      [x] + xs
    else
      SortedByTail(xs, key);
      var rest := InsertBy(x, xs[1..], key);
      InsertedMembers(rest, xs[1..], x);
      assert forall j :: 0 <= j < |rest| ==> !DateBefore(key(rest[j]), key(xs[0])) by {
        forall j | 0 <= j < |rest| ensures !DateBefore(key(rest[j]), key(xs[0])) {
          if rest[j] != x {
            var i :| 0 <= i < |xs| - 1 && xs[1..][i] == rest[j];
            assert xs[i + 1] == rest[j];
          }
        }
      }
      SortedByCons(xs[0], rest, key);
      ConsInserted(xs, rest, x);
      [xs[0]] + rest
  }

  /** Insertion sort under a date key: a sorted permutation. */
  function SortBy(xs: seq<string>, key: string -> Date): (r: seq<string>)
    ensures multiset(r) == multiset(xs)
    ensures SortedBy(r, key)
  {
    if xs == [] then []
    else
      assert xs == [xs[0]] + xs[1..];
      InsertBy(xs[0], SortBy(xs[1..], key), key)
  }

  /** On dated labels, sorted under the key is sorted by date. */
  lemma SortedByDateKey(s: seq<string>)
    requires AllDated(s) && SortedBy(s, DateKey)
    ensures SortedByDate(s)
  {
    forall i, j | 0 <= i < j < |s| ensures !DateBefore(DateOf(s[j]), DateOf(s[i])) {
      assert DateKey(s[i]) == DateOf(s[i]) && DateKey(s[j]) == DateOf(s[j]);
    }
  }

  /** A permutation of dated labels is dated. */
  lemma PermutationDated(a: seq<string>, b: seq<string>)
    requires AllDated(a) && multiset(a) == multiset(b)
    ensures AllDated(b)
  {
    forall i | 0 <= i < |b| ensures Dated(b[i]) {
      assert b[i] in multiset(a);
    }
  }

  /** Sorting the dated labels by the date each one carries, as the
      comparator passed to `sort.Slice` compares them. */
  function SortDated(days: seq<string>): (r: seq<string>)
    requires AllDated(days)
    ensures multiset(r) == multiset(days)
    ensures AllDated(r) && SortedByDate(r)
  {
    var r := SortBy(days, DateKey);
    PermutationDated(days, r);
    SortedByDateKey(r);
    r
  }

  /** The first label whose date does not parse, if any. */
  function FirstUndated(s: seq<string>): (r: Option<string>)
    ensures r.None? <==> AllDated(s)
    ensures r.Some? ==> r.value in s && !Dated(r.value)
  {
    if s == [] then None
    else if !Dated(s[0]) then Some(s[0])
    else
      var r := FirstUndated(s[1..]);
      assert AllDated(s[1..]) ==> AllDated(s) by {
        if AllDated(s[1..]) {
          forall i | 0 <= i < |s| ensures Dated(s[i]) {
            if i > 0 { assert s[i] == s[1..][i - 1]; }
          }
        }
      }
      r
  }

  /** `sortSliceByDateInParentheses`. `sort.Slice` calls its comparator
      only when there are two or more labels, so a lone label is returned
      as it is, even with a malformed date; otherwise every label's date is
      parsed and one that does not parse is fatal. On success the result is
      a permutation of the input, non-decreasing in date. */
  function SortByDate(days: seq<string>): (r: Result<seq<string>, Fatal>)
    ensures |days| <= 1 ==> r == Success(days)
    ensures |days| >= 2 ==> (r.Success? <==> AllDated(days))
    ensures r.Success? ==> multiset(r.value) == multiset(days)
    ensures r.Success? && |days| >= 2 ==> AllDated(r.value) && SortedByDate(r.value)
    ensures r.Failure? ==> r.error.MalformedDate? && r.error.dayLabel in days && !Dated(r.error.dayLabel)
  {
    if |days| <= 1 then Success(days)
    else
      match FirstUndated(days)
      case Some(bad) => Failure(MalformedDate(bad))
      case None => Success(SortDated(days))
  }

  /** Dropping the first label keeps a sequence dated, sorted and free of
      repeated dates. */
  lemma DatedTail(a: seq<string>)
    requires a != [] && AllDated(a) && SortedByDate(a)
    ensures AllDated(a[1..]) && SortedByDate(a[1..])
    ensures DistinctDates(a) ==> DistinctDates(a[1..])
  {
    assert forall i :: 0 <= i < |a| - 1 ==> a[1..][i] == a[i + 1];
  }

  /** Two date-sorted arrangements of the same labels, with no date
      repeated, start with the same label. */
  lemma SortedHeadsAgree(a: seq<string>, b: seq<string>)
    requires AllDated(a) && AllDated(b) && SortedByDate(a) && SortedByDate(b)
    requires DistinctDates(a) && a != []
    requires multiset(a) == multiset(b)
    ensures b != [] && a[0] == b[0]
  {
    assert a[0] in multiset(b);
    assert b[0] in multiset(a);
    var k :| 0 <= k < |b| && b[k] == a[0];
    var j :| 0 <= j < |a| && a[j] == b[0];
    assert k > 0 ==> !DateBefore(DateOf(b[k]), DateOf(b[0]));
    assert j == 0;
  }

  /** With no two labels on the same date, the date-sorted arrangement of a
      multiset of labels is unique. */
  lemma {:induction false} SortedByDateUnique(a: seq<string>, b: seq<string>)
    requires AllDated(a) && AllDated(b) && SortedByDate(a) && SortedByDate(b)
    requires DistinctDates(a)
    requires multiset(a) == multiset(b)
    ensures a == b
    decreases |a|
  {
    if a == [] {
      assert |b| == |multiset(b)|;
    } else {
      SortedHeadsAgree(a, b);
      MultisetTails(a, b);
      DatedTail(a);
      DatedTail(b);
      SortedByDateUnique(a[1..], b[1..]);
    }
  }

  // ---------------------------------------------------------------------
  // createEmailText

  /** `skyGlyphs`, each glyph written as its UTF-8 bytes. */
  const SkyGlyphs: map<string, string> := map[
    "Sunny" := "\U{E2}\U{98}\U{80}\U{EF}\U{B8}\U{8F}",
    "Clear" := "\U{F0}\U{9F}\U{8C}\U{99}",
    "Cloudy" := "\U{E2}\U{98}\U{81}\U{EF}\U{B8}\U{8F}",
    "Partly Cloudy" := "\U{E2}\U{9B}\U{85}",
    "Patchy rain nearby" := "\U{F0}\U{9F}\U{8C}\U{A7}\U{EF}\U{B8}\U{8F}",
    "Light rain shower" := "\U{F0}\U{9F}\U{8C}\U{A7}\U{EF}\U{B8}\U{8F}",
    "Light rain" := "\U{F0}\U{9F}\U{8C}\U{A7}\U{EF}\U{B8}\U{8F}",
    "Moderate rain" := "\U{F0}\U{9F}\U{8C}\U{A7}\U{EF}\U{B8}\U{8F}",
    "Light Drizzle" := "\U{F0}\U{9F}\U{8C}\U{A7}\U{EF}\U{B8}\U{8F}",
    "Moderate or heavy rain shower" := "\U{F0}\U{9F}\U{8C}\U{A7}\U{EF}\U{B8}\U{8F}",
    "Overcast" := "\U{E2}\U{98}\U{81}\U{EF}\U{B8}\U{8F}"
  ]

  /** `skyGlyphs[trimmed]`: a Go map read yields the empty string for a
      missing key. Every glyph in the table is non-empty, so a text has a
      glyph exactly when the table lists it; any other text, a padded or
      misspelt one included, gets the empty string and no error. */
  function Glyph(text: string): (g: string)
    ensures g != "" <==> text in SkyGlyphs
    ensures text in SkyGlyphs ==> g == SkyGlyphs[text]
  {
    if text in SkyGlyphs then SkyGlyphs[text] else ""
  }

  /** The number of trailing bytes split off as the temperature. */
  const TempWidth: nat := 6

  /** One line of an hour: "  <hour>: <text> <icon> (<temp>)\n", where the
      last six bytes of the stored summary are the temperature part and the
      rest, trimmed, is the condition text. A summary shorter than six bytes
      makes the slice panic. */
  function HourLine(day: string, hour: string, value: string): (r: Result<string, Fatal>)
    ensures r.Failure? <==> |value| < TempWidth
    ensures r.Failure? ==> r.error == ValueTooShort(day, hour)
  {
    if |value| < TempWidth then Failure(ValueTooShort(day, hour))
    else
      var weather := value[..|value| - TempWidth];
      var temp := value[|value| - TempWidth..];
      var trimmed := TrimSpace(weather);
      Success(RenderLine(hour, trimmed, temp))
  }

  /** The format "  %s: %s %s (%s)\n" filled with the hour key, the
      condition text, its glyph and the temperature part. */
  function RenderLine(hour: string, text: string, temp: string): (line: string)
  {
    "  " + hour + ": " + text + " " + Glyph(text) + " (" + temp + ")\n"
  }

  /** A rendered line gives back its parts: it opens with the indented hour
      key and the condition text, then holds the text's glyph and a space,
      and closes with the temperature part in parentheses and a newline. */
  lemma RenderLineFields(hour: string, text: string, temp: string)
    ensures var line := RenderLine(hour, text, temp);
            && |line| == |hour| + |text| + |Glyph(text)| + |temp| + 9
            && line[..|hour| + |text| + 5] == "  " + hour + ": " + text + " "
            && line[|hour| + |text| + 5..|line| - |temp| - 3] == Glyph(text) + " "
            && line[|line| - |temp| - 3..] == "(" + temp + ")\n"
  {
    var head, glyph, tail := "  " + hour + ": " + text + " ", Glyph(text) + " ", "(" + temp + ")\n";
    assert RenderLine(hour, text, temp) == head + glyph + tail;
  }

  /** The lines of the given hours of one day, in the given order; the first
      short summary is fatal. */
  function HourLines(day: string, hours: seq<string>, hm: HourMap): (r: Result<string, Fatal>)
    requires forall i :: 0 <= i < |hours| ==> hours[i] in hm
    ensures r.Success? <==> forall i :: 0 <= i < |hours| ==> |hm[hours[i]]| >= TempWidth
  {
    if hours == [] then Success("")
    else
      var line :- HourLine(day, hours[0], hm[hours[0]]);
      var rest :- HourLines(day, hours[1..], hm);
      assert forall i :: 1 <= i < |hours| ==> hours[i] == hours[1..][i - 1];
      Success(line + rest)
  }

  /** One day of the report: its label on a line of its own, then one line
      per hour in `sort.Strings` order. */
  function DayBlock(day: string, hm: HourMap, hourOrder: seq<string>): (r: Result<string, Fatal>)
    requires Enumerates(hourOrder, hm)
    ensures r.Success? <==> forall h :: h in hm ==> |hm[h]| >= TempWidth
  {
    var hours := SortStrings(hourOrder);
    assert forall h :: h in hours <==> h in hourOrder by {
      forall h ensures h in hours <==> h in hourOrder {
        assert h in hours <==> h in multiset(hours);
      }
    }
    var lines :- HourLines(day, hours, hm);
    Success(day + "\n" + lines)
  }

  /** Every hour summary of every day is long enough to split. */
  predicate NoShortValue(forecasts: Forecasts) {
    forall d, h :: d in forecasts && h in forecasts[d] ==> |forecasts[d][h]| >= TempWidth
  }

  /** Every day has an enumeration of its hour keys. */
  ghost predicate HourOrdersFor(forecasts: Forecasts, hourOrders: map<string, seq<string>>) {
    forall d :: d in forecasts ==> d in hourOrders && Enumerates(hourOrders[d], forecasts[d])
  }

  /** The blocks of the given days, in the given order. */
  function DayBlocks(days: seq<string>, forecasts: Forecasts, hourOrders: map<string, seq<string>>): (r: Result<string, Fatal>)
    requires forall i :: 0 <= i < |days| ==> days[i] in forecasts
    requires HourOrdersFor(forecasts, hourOrders)
    ensures r.Success? <==> LongEnough(days, forecasts)
  {
    if days == [] then Success("")
    else
      var block :- DayBlock(days[0], forecasts[days[0]], hourOrders[days[0]]);
      var rest :- DayBlocks(days[1..], forecasts, hourOrders);
      assert forall i :: 1 <= i < |days| ==> days[i] == days[1..][i - 1];
      Success(block + rest)
  }

  /** Every summary of the listed days is long enough to split. */
  ghost predicate LongEnough(days: seq<string>, forecasts: Forecasts)
    requires forall i :: 0 <= i < |days| ==> days[i] in forecasts
  {
    forall i, h :: 0 <= i < |days| && h in forecasts[days[i]] ==> |forecasts[days[i]][h]| >= TempWidth
  }

  /** Listing every day at least once, checking the listed days checks
      them all. */
  lemma LongEnoughCovers(days: seq<string>, forecasts: Forecasts)
    requires forall d :: d in forecasts <==> d in days
    ensures LongEnough(days, forecasts) <==> NoShortValue(forecasts)
  {
    if LongEnough(days, forecasts) {
      forall d, h | d in forecasts && h in forecasts[d] ensures |forecasts[d][h]| >= TempWidth {
        var i :| 0 <= i < |days| && days[i] == d;
      }
    }
  }

  /** `createEmailText`: the day labels sorted by date, each followed by its
      hour lines. It fails exactly when two or more labels are present and
      one has no parseable date, or when some hour summary is shorter than
      six bytes. */
  function CreateEmailText(forecasts: Forecasts, dayOrder: seq<string>, hourOrders: map<string, seq<string>>)
    : (r: Result<string, Fatal>)
    requires Enumerates(dayOrder, forecasts)
    requires HourOrdersFor(forecasts, hourOrders)
    ensures r.Success? <==> (|dayOrder| <= 1 || AllDated(dayOrder)) && NoShortValue(forecasts)
  {
    var days :- SortByDate(dayOrder);
    SameMultisetSameMembers(days, dayOrder);
    LongEnoughCovers(days, forecasts);
    DayBlocks(days, forecasts, hourOrders)
  }

  // ---------------------------------------------------------------------
  // Properties of the rendering

  /** No two different labels of the map carry the same date. */
  ghost predicate DatesDistinguish(forecasts: Forecasts) {
    forall d1, d2 :: d1 in forecasts && d2 in forecasts && d1 != d2 && Dated(d1) && Dated(d2) ==>
      DateOf(d1) != DateOf(d2)
  }

  lemma DistinctLabelsDistinctDates(s: seq<string>, forecasts: Forecasts)
    requires Distinct(s) && AllDated(s) && DatesDistinguish(forecasts)
    requires forall i :: 0 <= i < |s| ==> s[i] in forecasts
    ensures DistinctDates(s)
  {
  }

  lemma SameMembersAllDated(a: seq<string>, b: seq<string>)
    requires forall x :: x in a <==> x in b
    ensures AllDated(a) <==> AllDated(b)
  {
    if AllDated(a) {
      forall i | 0 <= i < |b| ensures Dated(b[i]) { assert b[i] in a; }
    }
    if AllDated(b) {
      forall i | 0 <= i < |a| ensures Dated(a[i]) { assert a[i] in b; }
    }
  }

  /** Two enumerations of the same map are permutations of each other,
      and equal when there is at most one key. */
  lemma EnumerationsAgree(a: seq<string>, b: seq<string>, forecasts: Forecasts)
    requires Enumerates(a, forecasts) && Enumerates(b, forecasts)
    ensures multiset(a) == multiset(b) && |a| == |b|
    ensures AllDated(a) <==> AllDated(b)
    ensures |a| <= 1 ==> a == b
  {
    SameMembersSameMultiset(a, b);
    assert |a| == |b| by {
      assert |a| == |multiset(a)| && |b| == |multiset(b)|;
    }
    SameMembersAllDated(a, b);
    if |a| <= 1 {
      SameMembersSingleton(a, b);
    }
  }

  lemma SortByDateOfDated(a: seq<string>)
    requires |a| >= 2 && AllDated(a)
    ensures SortByDate(a) == Success(SortDated(a))
  {
  }

  /** Sorting labels that differ in date depends only on which labels there
      are. */
  lemma SortDatedIgnoresOrder(a: seq<string>, b: seq<string>, forecasts: Forecasts)
    requires AllDated(a) && AllDated(b) && multiset(a) == multiset(b)
    requires Distinct(a) && forall i :: 0 <= i < |a| ==> a[i] in forecasts
    requires DatesDistinguish(forecasts)
    ensures SortDated(a) == SortDated(b)
  {
    var sa := SortDated(a);
    DistinctPermutation(a, sa);
    forall i | 0 <= i < |sa| ensures sa[i] in forecasts {
      assert sa[i] in multiset(a);
      var j :| 0 <= j < |a| && a[j] == sa[i];
    }
    DistinctLabelsDistinctDates(sa, forecasts);
    SortedByDateUnique(sa, SortDated(b));
  }

  /** Both enumerations of the same labels sort to the same sequence,
      provided no date is repeated; a lone label needs no date at all. */
  lemma SortByDateIgnoresOrder(a: seq<string>, b: seq<string>, forecasts: Forecasts)
    requires Enumerates(a, forecasts) && Enumerates(b, forecasts)
    requires |a| <= 1 || AllDated(a)
    requires DatesDistinguish(forecasts)
    ensures SortByDate(a).Success? && SortByDate(a) == SortByDate(b)
  {
    EnumerationsAgree(a, b, forecasts);
    if |a| > 1 {
      SortByDateOfDated(a);
      SortByDateOfDated(b);
      SortDatedIgnoresOrder(a, b, forecasts);
    }
  }

  /** Hour keys are visited in byte order, whatever order the map yields
      them in. */
  lemma DayBlockIgnoresHourOrder(day: string, hm: HourMap, o1: seq<string>, o2: seq<string>)
    requires Enumerates(o1, hm) && Enumerates(o2, hm)
    ensures DayBlock(day, hm, o1) == DayBlock(day, hm, o2)
  {
    SameMembersSameMultiset(o1, o2);
    SortStringsIgnoresOrder(o1, o2);
  }

  lemma {:induction false} DayBlocksIgnoreHourOrder(days: seq<string>, forecasts: Forecasts,
                                                    h1: map<string, seq<string>>, h2: map<string, seq<string>>)
    requires forall i :: 0 <= i < |days| ==> days[i] in forecasts
    requires HourOrdersFor(forecasts, h1) && HourOrdersFor(forecasts, h2)
    ensures DayBlocks(days, forecasts, h1) == DayBlocks(days, forecasts, h2)
    decreases |days|
  {
    if days != [] {
      DayBlockIgnoresHourOrder(days[0], forecasts[days[0]], h1[days[0]], h2[days[0]]);
      DayBlocksIgnoreHourOrder(days[1..], forecasts, h1, h2);
    }
  }

  /** Once the labels are sorted, the text is the blocks of the sorted
      labels. */
  lemma EmailTextOfSorted(forecasts: Forecasts, o: seq<string>, h: map<string, seq<string>>)
    requires Enumerates(o, forecasts) && HourOrdersFor(forecasts, h)
    requires SortByDate(o).Success?
    ensures forall i :: 0 <= i < |SortByDate(o).value| ==> SortByDate(o).value[i] in forecasts
    ensures CreateEmailText(forecasts, o, h) == DayBlocks(SortByDate(o).value, forecasts, h)
  {
    SameMultisetSameMembers(SortByDate(o).value, o);
  }

  /** The email text does not depend on the order in which Go's maps hand
      over their keys: whether it fails never does, and the text itself does
      not once the days are sorted by distinct dates. */
  lemma EmailTextIgnoresIterationOrder(forecasts: Forecasts,
                                       o1: seq<string>, h1: map<string, seq<string>>,
                                       o2: seq<string>, h2: map<string, seq<string>>)
    requires Enumerates(o1, forecasts) && HourOrdersFor(forecasts, h1)
    requires Enumerates(o2, forecasts) && HourOrdersFor(forecasts, h2)
    ensures CreateEmailText(forecasts, o1, h1).Success? == CreateEmailText(forecasts, o2, h2).Success?
    ensures (|o1| <= 1 || AllDated(o1)) && DatesDistinguish(forecasts) ==>
              CreateEmailText(forecasts, o1, h1) == CreateEmailText(forecasts, o2, h2)
  {
    EnumerationsAgree(o1, o2, forecasts);
    if (|o1| <= 1 || AllDated(o1)) && DatesDistinguish(forecasts) {
      SortByDateIgnoresOrder(o1, o2, forecasts);
      EmailTextOfSorted(forecasts, o1, h1);
      EmailTextOfSorted(forecasts, o2, h2);
      DayBlocksIgnoreHourOrder(SortByDate(o1).value, forecasts, h1, h2);
    }
  }

  /** The temperature part a summary should show: the temperature and
      " °C", padded on the left with spaces to six bytes. For a one- or two-byte
      temperature these are exactly the six bytes the split takes off. */
  function TempField(temp: string): (r: string)
    requires 1 <= |temp|
    ensures |r| == (if |temp| <= 2 then TempWidth else |temp| + |DegreeCelsius|)
  {
    (if |temp| == 1 then " " else "") + temp + DegreeCelsius
  }

  /** The temperature part ends with the temperature and " °C", whatever
      padding precedes them. */
  lemma TempFieldEnds(temp: string)
    requires 1 <= |temp|
    ensures var r := TempField(temp); r[|r| - |temp| - |DegreeCelsius|..] == temp + DegreeCelsius
  {
  }

  /** A summary made of a condition part and a six-byte tail renders that
      tail as the temperature and the trimmed condition part as the text. */
  lemma HourLineSplit(day: string, key: string, weather: string, tail: string)
    requires |tail| == TempWidth
    ensures HourLine(day, key, weather + tail)
         == Success(RenderLine(key, TrimSpace(weather), tail))
  {
    var v := weather + tail;
    assert v[..|v| - TempWidth] == weather;
    assert v[|v| - TempWidth..] == tail;
  }

  /** Whatever space the split leaves around the condition text is
      trimmed away again. */
  lemma TrimmedConditionPart(h: Hour)
    requires IsTrimmed(h.text) && 1 <= |h.temp| <= 2
    ensures |HourValue(h)| >= TempWidth
    ensures HourValue(h)[..|HourValue(h)| - TempWidth] == h.text + (if |h.temp| == 2 then " " else "")
    ensures HourValue(h)[|HourValue(h)| - TempWidth..] == TempField(h.temp)
    ensures TrimSpace(h.text + (if |h.temp| == 2 then " " else "")) == h.text
  {
    var pad := if |h.temp| == 2 then " " else "";
    assert HourValue(h) == (h.text + pad) + TempField(h.temp);
    assert h.text + pad == [] + h.text + pad;
    TrimSpacePadded([], h.text, pad);
  }

  /** The line rendered from a summary built by `HourValue`: the condition
      text comes back unchanged (and picks its glyph) whenever it has no
      surrounding white space and the temperature has one or two bytes. */
  lemma HourLineOfHour(day: string, key: string, h: Hour)
    requires IsTrimmed(h.text) && 1 <= |h.temp| <= 2
    ensures HourLine(day, key, HourValue(h)) == Success(RenderLine(key, h.text, TempField(h.temp)))
  {
    TrimmedConditionPart(h);
  }

  /** White space around the condition text in a summary is trimmed away
      before the glyph lookup, so a padded text gets the glyph of the bare
      text. */
  lemma PaddedConditionSameGlyph(day: string, key: string, a: string, t: string, b: string, tail: string)
    requires AllSpace(a) && AllSpace(b) && IsTrimmed(t) && |tail| == TempWidth
    ensures HourLine(day, key, a + t + b + tail) == Success(RenderLine(key, t, tail))
  {
    HourLineSplit(day, key, a + t + b, tail);
    TrimSpacePadded(a, t, b);
  }

  /** A three-byte temperature ("-10", "100") breaks the split: its first
      byte ends up in the condition text, which then finds no glyph. */
  lemma LongTemperatureMisplit(day: string, key: string, h: Hour)
    requires IsTrimmed(h.text) && h.text != [] && |h.temp| == 3 && !IsSpace(h.temp[0])
    ensures HourLine(day, key, HourValue(h))
         == Success(RenderLine(key, h.text + " " + [h.temp[0]], h.temp[1..] + DegreeCelsius))
  {
    var shown := h.text + " " + [h.temp[0]];
    assert HourValue(h) == shown + (h.temp[1..] + DegreeCelsius);
    HourLineSplit(day, key, shown, h.temp[1..] + DegreeCelsius);
    assert shown[0] == h.text[0] && shown[|shown| - 1] == h.temp[0];
    assert shown == [] + shown + [];
    TrimSpacePadded([], shown, []);
  }

  /** The concrete case of a frosty hour: "Sunny" at "-10" is shown as
      "Sunny -" with no icon and "10 °C". */
  lemma FrostyHourMisplit()
    ensures HourLine("Monday (2025-01-06)", "16:00", HourValue(Hour("Sunny", "-10")))
         == Success(RenderLine("16:00", "Sunny -", "10" + DegreeCelsius))
    ensures Glyph("Sunny -") == "" && Glyph("Sunny") != ""
  {
    var h := Hour("Sunny", "-10");
    assert IsTrimmed(h.text) && !IsSpace(h.temp[0]);
    LongTemperatureMisplit("Monday (2025-01-06)", "16:00", h);
    assert h.text + " " + [h.temp[0]] == "Sunny -";
    assert h.temp[1..] == "10";
    assert Glyph("Sunny -") == "";
  }

  // ---------------------------------------------------------------------
  // The split a temperature of any width needs

  /** Where the corrected split cuts a summary: just after the last space
      before " °C", the space that separates the condition text from the
      temperature, unless the six-byte cut already leaves the whole
      temperature in the temperature part. */
  function TempCut(value: string): (cut: nat)
    requires |value| >= TempWidth
    ensures cut <= |value| - TempWidth
    ensures cut < |value| - TempWidth ==> 0 < cut && value[cut - 1] == ' '
    ensures forall k :: cut <= k < |value| - |DegreeCelsius| && cut < |value| - TempWidth ==> value[k] != ' '
  {
    var sp := LastIndex(value[..|value| - |DegreeCelsius|], ' ');
    if 0 <= sp && sp + 1 < |value| - TempWidth then sp + 1 else |value| - TempWidth
  }

  /** `HourLine` with the corrected cut: the same fatal case, and the
      temperature part keeps every byte of the temperature. */
  function HourLineFixed(day: string, hour: string, value: string): (r: Result<string, Fatal>)
    ensures r.Failure? <==> |value| < TempWidth
    ensures r.Failure? ==> r.error == ValueTooShort(day, hour)
  {
    if |value| < TempWidth then Failure(ValueTooShort(day, hour))
    else
      var cut := TempCut(value);
      Success(RenderLine(hour, TrimSpace(value[..cut]), value[cut..]))
  }

  /** In "<text> <temp>" with no space in the temperature, the last space
      is the separator. */
  lemma LastSpaceSeparates(text: string, temp: string)
    requires ' ' !in temp
    ensures LastIndex(text + " " + temp, ' ') == |text|
  {
    var s := text + " " + temp;
    assert s[|text|] == ' ';
    assert forall k :: |text| < k < |s| ==> s[k] == temp[k - |text| - 1];
  }

  /** The corrected cut of a summary built by `HourValue`: the six-byte cut
      for a one- or two-byte temperature, and right after the separating
      space for a longer one. */
  lemma TempCutOfHour(h: Hour)
    requires h.temp != [] && ' ' !in h.temp
    ensures |HourValue(h)| >= TempWidth
    ensures TempCut(HourValue(h)) == if |h.temp| <= 2 then |HourValue(h)| - TempWidth else |h.text| + 1
  {
    var v := HourValue(h);
    assert v[..|v| - |DegreeCelsius|] == h.text + " " + h.temp;
    LastSpaceSeparates(h.text, h.temp);
  }

  /** A temperature of three or more bytes without a space is cut off
      whole, right after the separating space. */
  lemma LongTemperatureFixed(day: string, key: string, h: Hour)
    requires IsTrimmed(h.text) && |h.temp| > 2 && ' ' !in h.temp
    ensures HourLineFixed(day, key, HourValue(h)) == Success(RenderLine(key, h.text, h.temp + DegreeCelsius))
  {
    var v := HourValue(h);
    var cut := |h.text| + 1;
    TempCutOfHour(h);
    assert v[..cut] == h.text + " " && v[cut..] == h.temp + DegreeCelsius by {
      assert v == (h.text + " ") + (h.temp + DegreeCelsius);
    }
    assert TrimSpace(h.text + " ") == h.text by {
      assert h.text + " " == [] + h.text + " ";
      TrimSpacePadded([], h.text, " ");
    }
  }

  /** With the corrected cut every temperature without a space, whatever its
      width, renders whole, and the condition text keeps its glyph. */
  lemma HourLineFixedOfHour(day: string, key: string, h: Hour)
    requires IsTrimmed(h.text) && h.temp != [] && ' ' !in h.temp
    ensures HourLineFixed(day, key, HourValue(h)) == Success(RenderLine(key, h.text, TempField(h.temp)))
  {
    TempCutOfHour(h);
    if |h.temp| <= 2 {
      assert HourLineFixed(day, key, HourValue(h)) == HourLine(day, key, HourValue(h));
      HourLineOfHour(day, key, h);
    } else {
      LongTemperatureFixed(day, key, h);
      assert TempField(h.temp) == h.temp + DegreeCelsius;
    }
  }

  /** For the one- and two-byte temperatures of the weather the report is
      meant for, the corrected split renders what the six-byte split does. */
  lemma HourLineFixedAgrees(day: string, key: string, h: Hour)
    requires IsTrimmed(h.text) && 1 <= |h.temp| <= 2 && ' ' !in h.temp
    ensures HourLineFixed(day, key, HourValue(h)) == HourLine(day, key, HourValue(h))
  {
    HourLineFixedOfHour(day, key, h);
    HourLineOfHour(day, key, h);
  }

  /** The frosty hour of `FrostyHourMisplit` under the corrected split:
      "Sunny" keeps its glyph and the temperature reads "-10 °C". */
  lemma FrostyHourFixed()
    ensures HourLineFixed("Monday (2025-01-06)", "16:00", HourValue(Hour("Sunny", "-10")))
         == Success(RenderLine("16:00", "Sunny", "-10" + DegreeCelsius))
    ensures Glyph("Sunny") != ""
  {
    var h := Hour("Sunny", "-10");
    assert IsTrimmed(h.text) && ' ' !in h.temp;
    LongTemperatureFixed("Monday (2025-01-06)", "16:00", h);
  }
}
