/** The month view of the calendar page (app/calendar/page.tsx): the blank
    cells before the first of the month in a week that starts on Monday, the
    entries grouped by date, the entries of the selected day and the marker
    each day shows. Dates are the `yyyy-MM-dd` strings the page formats. */
module Calendar {
  import opened Common
  import opened DiaryStore
  import Utils
  import Tags

  // ----- the Monday-first grid -----

  /** What `getDay` returns: 0 for Sunday up to 6 for Saturday. */
  type Weekday = d: int | 0 <= d < 7

  /** `emptyDays`: how many blank cells precede the first of the month. */
  function EmptyDays(startDay: Weekday): (r: int)
    ensures 0 <= r <= 6
    ensures r == (startDay + 6) % 7
  {
    if startDay == 0 then 6 else startDay - 1
  }

  /** The column headers, Monday first. */
  const WeekDays: seq<string> := ["月", "火", "水", "木", "金", "土", "日"]

  /** The weekday names in `getDay` numbering, Sunday first. */
  const DayNames: seq<string> := ["日", "月", "火", "水", "木", "金", "土"]

  /** The header of column `j` names weekday `(j + 1) % 7`. */
  lemma HeaderNamesWeekday(j: int)
    requires 0 <= j < 7
    ensures WeekDays[j] == DayNames[(j + 1) % 7]
  {
  }

  /** Day `n` of the month (counting from 1) falls in column
      `(emptyDays + n - 1) % 7`, under the header of its own weekday. */
  lemma DayUnderItsHeader(startDay: Weekday, n: int)
    requires n >= 1
    ensures WeekDays[(EmptyDays(startDay) + n - 1) % 7] == DayNames[(startDay + n - 1) % 7]
  {
    var j := (EmptyDays(startDay) + n - 1) % 7;
    HeaderNamesWeekday(j);
    assert (j + 1) % 7 == (startDay + n - 1) % 7 by {
      assert EmptyDays(startDay) + n == (startDay + n - 1) + 7 * (if startDay == 0 then 1 else 0);
    }
  }

  // ----- diaryMap and selectedDiaries -----

  /** `diaryMap`: the reduce that pushes each entry onto the array of its
      date, which is `groupBy` by date. */
  method DiaryMap(entries: seq<DiaryRecord>) returns (m: map<string, seq<DiaryRecord>>)
    ensures forall k :: k in m <==> Utils.HasKey(entries, DateOf, k)
    ensures forall k | k in m :: m[k] == Utils.Select(entries, DateOf, k)
    ensures forall k | k in m :: m[k] != []
  {
    m := Utils.GroupBy(entries, DateOf);
  }

  /** Every entry sits under its own date. */
  lemma DiaryMapPlacesEachEntry(entries: seq<DiaryRecord>, m: map<string, seq<DiaryRecord>>)
    requires forall k :: k in m <==> Utils.HasKey(entries, DateOf, k)
    requires forall k | k in m :: m[k] == Utils.Select(entries, DateOf, k)
    ensures forall i | 0 <= i < |entries| :: entries[i].date in m && entries[i] in m[entries[i].date]
  {
    forall i | 0 <= i < |entries| ensures entries[i].date in m && entries[i] in m[entries[i].date] {
      EntryPlaced(entries, m, i);
    }
  }

  lemma EntryPlaced(entries: seq<DiaryRecord>, m: map<string, seq<DiaryRecord>>, i: nat)
    requires i < |entries|
    requires forall k :: k in m <==> Utils.HasKey(entries, DateOf, k)
    requires forall k | k in m :: m[k] == Utils.Select(entries, DateOf, k)
    ensures entries[i].date in m && entries[i] in m[entries[i].date]
  {
    var date := DateOf(entries[i]);
    assert Utils.HasKey(entries, DateOf, date);
    Utils.SelectContains(entries, DateOf, i);
  }

  /** A group lists its entries in fetch order: what the first `n` entries
      put under a date is a prefix of that date's group. */
  lemma DiaryMapKeepsOrder(entries: seq<DiaryRecord>, m: map<string, seq<DiaryRecord>>)
    requires forall k | k in m :: m[k] == Utils.Select(entries, DateOf, k)
    ensures forall n, k | 0 <= n <= |entries| && k in m :: Utils.Select(entries[..n], DateOf, k) <= m[k]
  {
    forall n, k | 0 <= n <= |entries| && k in m ensures Utils.Select(entries[..n], DateOf, k) <= m[k] {
      Utils.SelectPrefix(entries, DateOf, k, n);
    }
  }

  /** `diaryMap[dateStr] || []`: the entries of one day. */
  function DayEntries(m: map<string, seq<DiaryRecord>>, date: string): (r: seq<DiaryRecord>)
    ensures date !in m ==> r == []
  {
    if date in m then m[date] else []
  }

  /** `selectedDiaries`: nothing when no date is selected, else that day's
      entries. */
  function SelectedDiaries(m: map<string, seq<DiaryRecord>>, selected: Option<string>): (r: seq<DiaryRecord>)
    ensures selected.None? ==> r == []
  {
    if selected.None? then [] else DayEntries(m, selected.value)
  }

  /** On the map the page builds, a day's entries are exactly the fetched
      entries of that date, and they are empty exactly when the date has none. */
  lemma DayEntriesAreThatDate(entries: seq<DiaryRecord>, m: map<string, seq<DiaryRecord>>, date: string)
    requires forall k :: k in m <==> Utils.HasKey(entries, DateOf, k)
    requires forall k | k in m :: m[k] == Utils.Select(entries, DateOf, k)
    ensures DayEntries(m, date) == Utils.Select(entries, DateOf, date)
    ensures DayEntries(m, date) == [] <==> forall i | 0 <= i < |entries| :: entries[i].date != date
    ensures SelectedDiaries(m, Some(date)) == DayEntries(m, date)
  {
    Utils.SelectNonEmpty(entries, DateOf, date);
  }

  // ----- the day marker -----

  /** The colour class of a day cell. */
  datatype Marker = NoMarker | BuyMarker | SellMarker | NoteMarker

  /** `dayDiaries.some(d => d.type === kind)` */
  function AnyOfKind(day: seq<DiaryRecord>, kind: string): (b: bool)
    ensures b <==> exists i | 0 <= i < |day| :: day[i].kind == kind
  {
    if day == [] then false
    else
      assert forall i | 1 <= i < |day| :: day[i] == day[1..][i - 1];
      day[0].kind == kind || AnyOfKind(day[1..], kind)
  }

  /** `hasBuy ? "has-buy" : hasSell ? "has-sell" : hasNote ? "has-note" : ""`:
      buy wins over sell, sell over note. */
  function DayMarker(day: seq<DiaryRecord>): (r: Marker)
    ensures r == BuyMarker <==> exists i | 0 <= i < |day| :: day[i].kind == "buy"
    ensures r == SellMarker <==>
      (forall i | 0 <= i < |day| :: day[i].kind != "buy") && (exists i | 0 <= i < |day| :: day[i].kind == "sell")
    ensures r == NoteMarker <==>
      (forall i | 0 <= i < |day| :: day[i].kind != "buy" && day[i].kind != "sell")
      && (exists i | 0 <= i < |day| :: day[i].kind == "note")
    ensures r == NoMarker <==>
      forall i | 0 <= i < |day| :: day[i].kind != "buy" && day[i].kind != "sell" && day[i].kind != "note"
  {
    if AnyOfKind(day, "buy") then BuyMarker
    else if AnyOfKind(day, "sell") then SellMarker
    else if AnyOfKind(day, "note") then NoteMarker
    else NoMarker
  }

  /** A day without entries shows no marker. */
  lemma EmptyDayUnmarked()
    ensures DayMarker([]) == NoMarker
  {
  }

  /** A day with entries of the three diary types always shows a marker. */
  lemma TypedDayMarked(day: seq<DiaryRecord>)
    requires day != []
    requires forall i | 0 <= i < |day| :: Tags.IsDiaryType(day[i].kind)
    ensures DayMarker(day) != NoMarker
  {
    assert Tags.IsDiaryType(day[0].kind);
  }
}
