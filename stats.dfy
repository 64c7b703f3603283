/** The aggregations of the statistics page (app/stats/page.tsx) over the
    diary entries it fetched: the split by type, the per-day buckets behind
    the bar chart, the type distribution behind the pie chart and the ticker
    ranking. The two dictionaries the page builds with `reduce` are loops
    that update their accumulator in place; everything else is a value. */
module Stats {
  import opened Common
  import opened DiaryStore
  import Sorting
  import Utils
  import Tags

  // ----- the split by type -----

  /** `diaries.filter(d => d.type === kind)`, in input order. */
  function OfKind(entries: seq<DiaryRecord>, kind: string): (r: seq<DiaryRecord>)
    ensures |r| <= |entries|
  {
    if entries == [] then []
    else OfKind(entries[..|entries| - 1], kind) + (if entries[|entries| - 1].kind == kind then [entries[|entries| - 1]] else [])
  }

  /** The filter keeps exactly the entries of that type. */
  lemma {:induction false} OfKindMembers(entries: seq<DiaryRecord>, kind: string)
    ensures forall e :: e in OfKind(entries, kind) <==> e in entries && e.kind == kind
  {
    if entries != [] {
      var init, last := entries[..|entries| - 1], entries[|entries| - 1];
      OfKindMembers(init, kind);
      assert entries == init + [last];
    }
  }

  /** The entries that are neither buys nor sells: the page counts them as
      notes in its per-day buckets. */
  function Others(entries: seq<DiaryRecord>): (r: seq<DiaryRecord>)
    ensures |r| <= |entries|
  {
    if entries == [] then []
    else
      var last := entries[|entries| - 1];
      Others(entries[..|entries| - 1]) + (if last.kind != "buy" && last.kind != "sell" then [last] else [])
  }

  lemma {:induction false} OthersMembers(entries: seq<DiaryRecord>)
    ensures forall e :: e in Others(entries) <==> e in entries && e.kind != "buy" && e.kind != "sell"
  {
    if entries != [] {
      var init, last := entries[..|entries| - 1], entries[|entries| - 1];
      OthersMembers(init);
      assert entries == init + [last];
    }
  }

  /** Buys, sells and the rest split any list of entries: as multisets they add
      up to it. */
  lemma {:induction false} KindsSplit(entries: seq<DiaryRecord>)
    ensures multiset(OfKind(entries, "buy")) + multiset(OfKind(entries, "sell")) + multiset(Others(entries))
      == multiset(entries)
    ensures |OfKind(entries, "buy")| + |OfKind(entries, "sell")| + |Others(entries)| == |entries|
  {
    if entries != [] {
      var init, last := entries[..|entries| - 1], entries[|entries| - 1];
      KindsSplit(init);
      assert entries == init + [last];
      assert multiset(entries) == multiset(init) + multiset{last};
    }
  }

  /** When every type is one of the three diary types, the rest are the notes. */
  lemma {:induction false} OthersAreNotes(entries: seq<DiaryRecord>)
    requires forall i | 0 <= i < |entries| :: Tags.IsDiaryType(entries[i].kind)
    ensures Others(entries) == OfKind(entries, "note")
  {
    if entries != [] {
      OthersAreNotes(entries[..|entries| - 1]);
    }
  }

  /** With only the three diary types, `buys`, `sells` and `notes` partition
      the entries and their lengths add up to the total. */
  lemma KindsPartition(entries: seq<DiaryRecord>)
    requires forall i | 0 <= i < |entries| :: Tags.IsDiaryType(entries[i].kind)
    ensures multiset(OfKind(entries, "buy")) + multiset(OfKind(entries, "sell")) + multiset(OfKind(entries, "note"))
      == multiset(entries)
    ensures |OfKind(entries, "buy")| + |OfKind(entries, "sell")| + |OfKind(entries, "note")| == |entries|
  {
    KindsSplit(entries);
    OthersAreNotes(entries);
  }

  // ----- dailyData and chartData -----

  /** One bucket of `dailyData`. */
  datatype DayCount = DayCount(date: string, buys: nat, sells: nat, notes: nat)

  /** The bucket a date should get: the buys, the sells and the rest among that
      date's entries. */
  function Tally(entries: seq<DiaryRecord>, date: string): DayCount {
    CountDay(date, Utils.Select(entries, DateOf, date))
  }

  /** The counters of one day's entries. */
  function CountDay(date: string, day: seq<DiaryRecord>): DayCount {
    DayCount(date, |OfKind(day, "buy")|, |OfKind(day, "sell")|, |Others(day)|)
  }

  /** A bucket counts every entry of its date exactly once. */
  lemma DayTotal(entries: seq<DiaryRecord>, date: string)
    ensures var c := Tally(entries, date);
      c.buys + c.sells + c.notes == |Utils.Select(entries, DateOf, date)|
  {
    KindsSplit(Utils.Select(entries, DateOf, date));
  }

  /** A date without entries tallies to zero. */
  lemma TallyAbsent(entries: seq<DiaryRecord>, date: string)
    requires !Utils.HasKey(entries, DateOf, date)
    ensures Tally(entries, date) == DayCount(date, 0, 0, 0)
  {
    Utils.SelectNonEmpty(entries, DateOf, date);
  }

  /** `acc[date].buys++`, `.sells++` or `.notes++`, by the entry's type. */
  function Bump(c: DayCount, kind: string): (r: DayCount)
    ensures r.date == c.date && r.buys + r.sells + r.notes == c.buys + c.sells + c.notes + 1
  {
    if kind == "buy" then c.(buys := c.buys + 1)
    else if kind == "sell" then c.(sells := c.sells + 1)
    else c.(notes := c.notes + 1)
  }

  lemma OfKindStep(s: seq<DiaryRecord>, x: DiaryRecord, kind: string)
    ensures OfKind(s + [x], kind) == OfKind(s, kind) + (if x.kind == kind then [x] else [])
  {
    assert (s + [x])[..|s|] == s;
  }

  lemma OthersStep(s: seq<DiaryRecord>, x: DiaryRecord)
    ensures Others(s + [x]) == Others(s) + (if x.kind != "buy" && x.kind != "sell" then [x] else [])
  {
    assert (s + [x])[..|s|] == s;
  }

  /** One more entry of a day bumps the counter of its type. */
  lemma CountDayStep(date: string, day: seq<DiaryRecord>, x: DiaryRecord)
    ensures CountDay(date, day + [x]) == Bump(CountDay(date, day), x.kind)
  {
    OfKindStep(day, x, "buy");
    OfKindStep(day, x, "sell");
    OthersStep(day, x);
  }

  /** One more entry bumps one counter of its own date's bucket. */
  lemma TallyStep(s: seq<DiaryRecord>, x: DiaryRecord, date: string)
    ensures Tally(s + [x], date) == if x.date != date then Tally(s, date) else Bump(Tally(s, date), x.kind)
  {
    Utils.SelectAppend(s, x, DateOf, date);
    var day := Utils.Select(s, DateOf, date);
    if x.date == date {
      assert Utils.Select(s + [x], DateOf, date) == day + [x];
      CountDayStep(date, day, x);
    } else {
      assert Utils.Select(s + [x], DateOf, date) == day;
    }
  }

  /** The dictionary after one more entry is the dictionary of the longer
      input. */
  lemma DailyStep(before: map<string, DayCount>, s: seq<DiaryRecord>, x: DiaryRecord)
    requires forall k :: k in before <==> Utils.HasKey(s, DateOf, k)
    requires forall k | k in before :: before[k] == Tally(s, k)
    ensures var after := before[x.date := Tally(s + [x], x.date)];
      && (forall k :: k in after <==> Utils.HasKey(s + [x], DateOf, k))
      && (forall k | k in after :: after[k] == Tally(s + [x], k))
  {
    Utils.HasKeyStep(s, x, DateOf);
    forall k | k in before && k != x.date ensures Tally(s + [x], k) == Tally(s, k) {
      TallyStep(s, x, k);
    }
  }

  /** What `dailyData` holds after the entries `s`: one bucket per date that
      occurs, holding that date's tally, and the keys once each in `order`,
      in the order their dates first occur. */
  ghost predicate DailyOf(acc: map<string, DayCount>, order: seq<string>, s: seq<DiaryRecord>) {
    && (forall k :: k in acc <==> Utils.HasKey(s, DateOf, k))
    && (forall k | k in acc :: acc[k] == Tally(s, k))
    && (forall k :: k in order <==> k in acc)
    && Sorting.NoDuplicates(order)
    && order == Utils.Unique(Utils.KeysOf(s, DateOf))
  }

  /** `if (!acc[date]) acc[date] = { date, buys: 0, sells: 0, notes: 0 }`: a
      missing bucket opens empty; `current` is what the bucket of `date`
      should hold so far. */
  method OpenBucket(acc: map<string, DayCount>, order: seq<string>, date: string, ghost current: DayCount)
    returns (acc': map<string, DayCount>, order': seq<string>)
    requires forall k :: k in order <==> k in acc
    requires Sorting.NoDuplicates(order)
    requires date in acc ==> acc[date] == current
    requires date !in acc ==> current == DayCount(date, 0, 0, 0)
    ensures acc' == acc[date := current]
    ensures order' == if date in acc then order else order + [date]
    ensures forall k :: k in order' <==> k in acc'
    ensures Sorting.NoDuplicates(order')
  {
    acc', order' := acc, order;
    if date !in acc' {
      Sorting.NoDuplicatesAppend(order', date);
      acc' := acc'[date := DayCount(date, 0, 0, 0)];
      order' := order' + [date];
    }
  }

  /** One round of the reduce: make sure the entry's date has a bucket, then
      bump the counter of its type. */
  method CountEntry(acc: map<string, DayCount>, order: seq<string>, d: DiaryRecord, ghost current: DayCount)
    returns (acc': map<string, DayCount>, order': seq<string>)
    requires forall k :: k in order <==> k in acc
    requires Sorting.NoDuplicates(order)
    requires d.date in acc ==> acc[d.date] == current
    requires d.date !in acc ==> current == DayCount(d.date, 0, 0, 0)
    ensures acc' == acc[d.date := Bump(current, d.kind)]
    ensures order' == if d.date in acc then order else order + [d.date]
    ensures forall k :: k in order' <==> k in acc'
    ensures Sorting.NoDuplicates(order')
  {
    acc', order' := OpenBucket(acc, order, d.date, current);
    acc' := acc'[d.date := Bump(acc'[d.date], d.kind)];
  }

  /** Before a round, the bucket of a date holds its tally so far, and a
      missing bucket is a date not seen yet. */
  lemma DailyOfBucket(acc: map<string, DayCount>, order: seq<string>, done: seq<DiaryRecord>, date: string)
    requires DailyOf(acc, order, done)
    ensures date in acc ==> acc[date] == Tally(done, date)
    ensures date !in acc ==> Tally(done, date) == DayCount(date, 0, 0, 0)
  {
    if date !in acc {
      TallyAbsent(done, date);
    }
  }

  /** After a round, the dictionary is the one of the longer input. */
  lemma DailyOfStep(acc: map<string, DayCount>, order: seq<string>, done: seq<DiaryRecord>, d: DiaryRecord,
                    acc': map<string, DayCount>, order': seq<string>)
    requires DailyOf(acc, order, done)
    requires acc' == acc[d.date := Bump(Tally(done, d.date), d.kind)]
    requires order' == if d.date in acc then order else order + [d.date]
    requires forall k :: k in order' <==> k in acc'
    requires Sorting.NoDuplicates(order')
    ensures DailyOf(acc', order', done + [d])
  {
    TallyStep(done, d, d.date);
    DailyStep(acc, done, d);
    Utils.KeysOfSnoc(done, DateOf, d);
    Utils.UniqueSnoc(Utils.KeysOf(done, DateOf), DateOf(d));
  }

  /** One round of the reduce keeps the dictionary equal to the one of the
      entries seen so far. */
  method Round(acc: map<string, DayCount>, order: seq<string>, d: DiaryRecord, ghost done: seq<DiaryRecord>)
    returns (acc': map<string, DayCount>, order': seq<string>)
    requires DailyOf(acc, order, done)
    ensures DailyOf(acc', order', done + [d])
  {
    ghost var current := Tally(done, d.date);
    DailyOfBucket(acc, order, done, d.date);
    acc', order' := CountEntry(acc, order, d, current);
    DailyOfStep(acc, order, done, d, acc', order');
  }

  /** `dailyData`: one bucket per date that occurs, holding that date's tally,
      with the keys in the order the dictionary first saw them: the distinct
      dates of the entries in first-occurrence order. */
  method DailyData(entries: seq<DiaryRecord>) returns (acc: map<string, DayCount>, order: seq<string>)
    ensures forall k :: k in acc <==> Utils.HasKey(entries, DateOf, k)
    ensures forall k | k in acc :: acc[k] == Tally(entries, k)
    ensures forall k :: k in order <==> k in acc
    ensures Sorting.NoDuplicates(order)
    ensures order == Utils.Unique(Utils.KeysOf(entries, DateOf))
    ensures Utils.FirstSeenOrder(Utils.KeysOf(entries, DateOf), order)
  {
    acc, order := map[], [];
    var i := 0;
    while i < |entries|
      invariant 0 <= i <= |entries|
      invariant DailyOf(acc, order, entries[..i])
    {
      acc, order := Round(acc, order, entries[i], entries[..i]);
      assert entries[..i + 1] == entries[..i] + [entries[i]];
      i := i + 1;
    }
    assert entries[..i] == entries;
    Utils.UniqueOrder(Utils.KeysOf(entries, DateOf));
  }

  /** `Object.values(dailyData)`: the buckets in key order. */
  function Values(acc: map<string, DayCount>, order: seq<string>): seq<DayCount>
    requires forall k | k in order :: k in acc
  {
    seq(|order|, i requires 0 <= i < |order| => acc[order[i]])
  }

  /** `a.date.localeCompare(b.date) <= 0`, with dates compared code point by
      code point. */
  predicate DateOrder(a: DayCount, b: DayCount) {
    StrLessEq(a.date, b.date)
  }

  lemma DateOrderTotalPreorder()
    ensures Sorting.TotalPreorder(DateOrder)
  {
    forall a: DayCount, b: DayCount ensures DateOrder(a, b) || DateOrder(b, a) {
      StrLessTotal(a.date, b.date);
    }
    forall a: DayCount, b: DayCount, c: DayCount | DateOrder(a, b) && DateOrder(b, c)
      ensures DateOrder(a, c)
    {
      if StrLess(a.date, b.date) && StrLess(b.date, c.date) {
        StrLessTransitive(a.date, b.date, c.date);
      }
    }
  }

  /** `.slice(-n)`: the last `n` elements, or all of them when there are
      fewer. */
  function LastN<T>(s: seq<T>, n: nat): (r: seq<T>)
    ensures |r| == if |s| < n then |s| else n
    ensures r == s[|s| - |r|..]
  {
    if |s| <= n then s else s[|s| - n..]
  }

  /** `chartData`: the buckets in ascending date order, the last 14 of them. */
  function ChartData(buckets: seq<DayCount>): (r: seq<DayCount>)
    ensures |r| <= 14 && (|buckets| >= 14 ==> |r| == 14) && (|buckets| < 14 ==> |r| == |buckets|)
    ensures Sorting.SortedBy(r, DateOrder)
    ensures multiset(r) <= multiset(buckets)
  {
    DateOrderTotalPreorder();
    var sorted := Sorting.Sort(buckets, DateOrder);
    var r := LastN(sorted, 14);
    assert r == sorted[|sorted| - |r|..|sorted|];
    Sorting.SliceSorted(sorted, |sorted| - |r|, |sorted|, DateOrder);
    assert multiset(sorted) == multiset(buckets);
    r
  }

  /** The chart shows the latest dates: a bucket left out comes no later than
      any bucket shown. */
  lemma ChartIsLatest(buckets: seq<DayCount>)
    ensures forall b, c | b in buckets && b !in ChartData(buckets) && c in ChartData(buckets) :: DateOrder(b, c)
  {
    DateOrderTotalPreorder();
    var sorted := Sorting.Sort(buckets, DateOrder);
    var r := ChartData(buckets);
    assert r == sorted[|sorted| - |r|..];
    Sorting.SuffixFollows(sorted, |sorted| - |r|, DateOrder);
    forall b | b in buckets ensures b in sorted {
      assert b in multiset(buckets);
    }
  }

  /** Every bar of the chart is the tally of its date, and that date has
      entries. */
  lemma ChartBarsAreTallies(entries: seq<DiaryRecord>, acc: map<string, DayCount>, order: seq<string>)
    requires forall k :: k in acc <==> Utils.HasKey(entries, DateOf, k)
    requires forall k | k in acc :: acc[k] == Tally(entries, k)
    requires forall k :: k in order <==> k in acc
    ensures forall c | c in ChartData(Values(acc, order)) ::
      c == Tally(entries, c.date) && c.buys + c.sells + c.notes > 0
  {
    var values := Values(acc, order);
    forall c | c in ChartData(values) ensures c == Tally(entries, c.date) && c.buys + c.sells + c.notes > 0 {
      ChartFromValues(values, c);
      var k := ValueKey(acc, order, c);
      DayTotal(entries, k);
      Utils.SelectNonEmpty(entries, DateOf, k);
    }
  }

  lemma ChartFromValues(values: seq<DayCount>, c: DayCount)
    requires c in ChartData(values)
    ensures c in values
  {
    assert c in multiset(ChartData(values));
  }

  /** The key a value of the dictionary sits under. */
  lemma ValueKey(acc: map<string, DayCount>, order: seq<string>, c: DayCount) returns (k: string)
    requires forall k | k in order :: k in acc
    requires c in Values(acc, order)
    ensures k in order && acc[k] == c
  {
    var values := Values(acc, order);
    var i :| 0 <= i < |values| && values[i] == c;
    k := order[i];
  }

  // ----- typeData -----

  /** One slice of the type distribution. */
  datatype Slice = Slice(name: string, value: nat, color: string)

  function SumValues(s: seq<Slice>): nat {
    if s == [] then 0 else s[0].value + SumValues(s[1..])
  }

  /** `.filter(d => d.value > 0)`. */
  function Positive(s: seq<Slice>): (r: seq<Slice>)
    ensures forall x :: x in r <==> x in s && x.value > 0
    ensures SumValues(r) == SumValues(s)
    ensures |r| <= |s|
  {
    if s == [] then []
    else if s[0].value > 0 then [s[0]] + Positive(s[1..])
    else Positive(s[1..])
  }

  /** The three slices before the filter. */
  function AllSlices(entries: seq<DiaryRecord>): seq<Slice> {
    [ Slice("買い", |OfKind(entries, "buy")|, "#22c55e"),
      Slice("売り", |OfKind(entries, "sell")|, "#ef4444"),
      Slice("所感", |OfKind(entries, "note")|, "#3b82f6") ]
  }

  /** `typeData`: the slices of the types that occur, and only those. */
  function TypeData(entries: seq<DiaryRecord>): (r: seq<Slice>)
    ensures forall x :: x in r <==> x in AllSlices(entries) && x.value > 0
    ensures |r| <= 3
    ensures SumValues(r) == |OfKind(entries, "buy")| + |OfKind(entries, "sell")| + |OfKind(entries, "note")|
  {
    var all := AllSlices(entries);
    assert SumValues(all) == all[0].value + all[1].value + all[2].value by {
      assert all[2..][1..] == [];
      assert SumValues(all[2..]) == all[2].value;
      assert all[1..][1..] == all[2..];
    }
    Positive(all)
  }

  /** The filter keeps the order: it works piece by piece. */
  lemma {:induction false} PositiveAppend(a: seq<Slice>, b: seq<Slice>)
    ensures Positive(a + b) == Positive(a) + Positive(b)
  {
    if a != [] {
      assert (a + b)[0] == a[0] && (a + b)[1..] == a[1..] + b;
      PositiveAppend(a[1..], b);
    } else {
      assert a + b == b;
    }
  }

  /** The slices that remain come in the order buy, sell, note. */
  lemma TypeDataOrder(entries: seq<DiaryRecord>)
    ensures var all := AllSlices(entries);
      TypeData(entries) ==
        (if all[0].value > 0 then [all[0]] else []) + (if all[1].value > 0 then [all[1]] else [])
        + (if all[2].value > 0 then [all[2]] else [])
  {
    var all := AllSlices(entries);
    PositiveThree(all[0], all[1], all[2]);
    assert all == [all[0], all[1], all[2]];
  }

  lemma PositiveThree(a: Slice, b: Slice, c: Slice)
    ensures Positive([a, b, c]) ==
      (if a.value > 0 then [a] else []) + (if b.value > 0 then [b] else []) + (if c.value > 0 then [c] else [])
  {
    var ab := [a] + [b];
    assert [a, b, c] == ab + [c];
    PositiveAppend(ab, [c]);
    PositiveAppend([a], [b]);
    PositiveSingle(a);
    PositiveSingle(b);
    PositiveSingle(c);
  }

  lemma PositiveSingle(a: Slice)
    ensures Positive([a]) == if a.value > 0 then [a] else []
  {
    assert [a][1..] == [];
  }

  /** With only the three diary types the pie covers every entry. */
  lemma TypeDataCoversEntries(entries: seq<DiaryRecord>)
    requires forall i | 0 <= i < |entries| :: Tags.IsDiaryType(entries[i].kind)
    ensures SumValues(TypeData(entries)) == |entries|
  {
    KindsPartition(entries);
  }

  /** The slices carry the captions and colours of the master list of diary
      types, in its order. */
  lemma SlicesFollowDiaryTypes(entries: seq<DiaryRecord>)
    ensures forall i | 0 <= i < 3 ::
      AllSlices(entries)[i].name == Tags.DiaryTypes[i].caption
      && AllSlices(entries)[i].color == Tags.DiaryTypes[i].color
      && AllSlices(entries)[i].value == |OfKind(entries, Tags.DiaryTypes[i].value)|
  {
  }

  // ----- tickerData and topTickers -----

  /** How many entries carry ticker `t`. */
  function TickerCount(entries: seq<DiaryRecord>, t: string): nat {
    if entries == [] then 0
    else TickerCount(entries[..|entries| - 1], t) + (if entries[|entries| - 1].ticker == Some(t) then 1 else 0)
  }

  /** `d.ticker` is truthy: present and not empty. */
  predicate HasTicker(e: DiaryRecord) {
    e.ticker.Some? && e.ticker.value != ""
  }

  lemma TickerStep(s: seq<DiaryRecord>, x: DiaryRecord)
    ensures forall t :: TickerCount(s + [x], t) == TickerCount(s, t) + (if x.ticker == Some(t) then 1 else 0)
  {
    var u := s + [x];
    assert u[..|u| - 1] == s && u[|u| - 1] == x;
  }

  /** The non-empty tickers of the entries, one per entry that has one, in
      entry order. */
  function TickerKeys(entries: seq<DiaryRecord>): (r: seq<string>)
    ensures forall t :: t in r <==> t != "" && TickerCount(entries, t) > 0
  {
    if entries == [] then []
    else
      var init, last := entries[..|entries| - 1], entries[|entries| - 1];
      TickerKeys(init) + (if HasTicker(last) then [last.ticker.value] else [])
  }

  lemma TickerKeysSnoc(s: seq<DiaryRecord>, x: DiaryRecord)
    ensures TickerKeys(s + [x]) == TickerKeys(s) + (if HasTicker(x) then [x.ticker.value] else [])
  {
    assert (s + [x])[..|s|] == s;
  }

  /** What `tickerData` holds after the entries `s`: a counter per non-empty
      ticker that occurs, holding its count, and the keys once each in
      `order`, in the order their tickers first occur. */
  ghost predicate TickerOf(acc: map<string, nat>, order: seq<string>, s: seq<DiaryRecord>) {
    && (forall t :: t in acc <==> t != "" && TickerCount(s, t) > 0)
    && (forall t | t in acc :: acc[t] == TickerCount(s, t))
    && (forall t :: t in order <==> t in acc)
    && Sorting.NoDuplicates(order)
    && order == Utils.Unique(TickerKeys(s))
  }

  /** One entry more: a new ticker opens a counter at the end of the key
      order, a known one only counts up, and an entry without one changes
      nothing. */
  lemma TickerOfStep(acc: map<string, nat>, order: seq<string>, done: seq<DiaryRecord>, d: DiaryRecord,
                     acc': map<string, nat>, order': seq<string>)
    requires TickerOf(acc, order, done)
    requires !HasTicker(d) ==> acc' == acc && order' == order
    requires HasTicker(d) ==>
      var t := d.ticker.value;
      && acc' == acc[t := (if t in acc then acc[t] else 0) + 1]
      && order' == (if t in acc then order else order + [t])
    ensures TickerOf(acc', order', done + [d])
  {
    TickerStep(done, d);
    TickerKeysSnoc(done, d);
    if HasTicker(d) {
      var t := d.ticker.value;
      Utils.UniqueSnoc(TickerKeys(done), t);
      if t !in acc {
        Sorting.NoDuplicatesAppend(order, t);
      }
    } else {
      assert TickerKeys(done + [d]) == TickerKeys(done);
    }
  }

  /** One step of the reduce: a present, non-empty ticker gets a counter if it
      has none, and the counter goes up by one. */
  method CountTicker(acc: map<string, nat>, order: seq<string>, d: DiaryRecord, ghost done: seq<DiaryRecord>)
    returns (acc': map<string, nat>, order': seq<string>)
    requires TickerOf(acc, order, done)
    ensures TickerOf(acc', order', done + [d])
  {
    acc', order' := acc, order;
    if HasTicker(d) {
      var t := d.ticker.value;
      if t !in acc' {
        acc' := acc'[t := 0];
        order' := order' + [t];
      }
      acc' := acc'[t := acc'[t] + 1];
    }
    TickerOfStep(acc, order, done, d, acc', order');
  }

  /** `tickerData`: one counter per non-empty ticker that occurs, holding the
      number of entries with that ticker; entries without a ticker, or with an
      empty one, are skipped. The keys come in the order their tickers first
      occur. */
  method TickerData(entries: seq<DiaryRecord>) returns (acc: map<string, nat>, order: seq<string>)
    ensures forall t :: t in acc <==> t != "" && TickerCount(entries, t) > 0
    ensures forall t | t in acc :: acc[t] == TickerCount(entries, t)
    ensures forall t :: t in order <==> t in acc
    ensures Sorting.NoDuplicates(order)
    ensures order == Utils.Unique(TickerKeys(entries))
    ensures Utils.FirstSeenOrder(TickerKeys(entries), order)
  {
    acc, order := map[], [];
    var i := 0;
    while i < |entries|
      invariant 0 <= i <= |entries|
      invariant TickerOf(acc, order, entries[..i])
    {
      acc, order := CountTicker(acc, order, entries[i], entries[..i]);
      assert entries[..i + 1] == entries[..i] + [entries[i]];
      i := i + 1;
    }
    assert entries[..i] == entries;
    Utils.UniqueOrder(TickerKeys(entries));
  }

  /** One row of the ticker ranking. `Object.entries` yields `[name, value]`
      pairs that the page renames to `{ name, value }`; the model keeps the
      renamed form throughout. */
  datatype TickerStat = TickerStat(name: string, value: nat)

  /** `Object.entries(tickerData)`, in key order. */
  function TickerEntries(acc: map<string, nat>, order: seq<string>): seq<TickerStat>
    requires forall t | t in order :: t in acc
  {
    seq(|order|, i requires 0 <= i < |order| => TickerStat(order[i], acc[order[i]]))
  }

  /** `b[1] - a[1]` is not positive: `a` may come first when its count is at
      least `b`'s. */
  predicate ByCountDesc(a: TickerStat, b: TickerStat) {
    a.value >= b.value
  }

  /** `topTickers`: the stable sort by descending count, then the first five. */
  function TopTickers(stats: seq<TickerStat>): (r: seq<TickerStat>)
    ensures |r| == if |stats| < 5 then |stats| else 5
    ensures forall i, j | 0 <= i < j < |r| :: r[i].value >= r[j].value
    ensures multiset(r) <= multiset(stats)
  {
    var sorted := Sorting.Sort(stats, ByCountDesc);
    var r := if |sorted| <= 5 then sorted else sorted[..5];
    Sorting.SliceSorted(sorted, 0, |r|, ByCountDesc);
    assert r == sorted[0..|r|];
    r
  }

  /** No ticker left out of the ranking has a higher count than one shown. */
  lemma TopTickersAreTheTop(stats: seq<TickerStat>)
    ensures forall e, c | e in stats && e !in TopTickers(stats) && c in TopTickers(stats) :: e.value <= c.value
  {
    var sorted := Sorting.Sort(stats, ByCountDesc);
    var r := TopTickers(stats);
    assert r == sorted[..|r|];
    Sorting.PrefixLeads(sorted, |r|, ByCountDesc);
    forall e | e in stats ensures e in sorted {
      assert e in multiset(stats);
    }
  }

  /** Every ticker shown is a real ticker with its true count. */
  lemma TopTickersCountEntries(entries: seq<DiaryRecord>, acc: map<string, nat>, order: seq<string>)
    requires forall t :: t in acc <==> t != "" && TickerCount(entries, t) > 0
    requires forall t | t in acc :: acc[t] == TickerCount(entries, t)
    requires forall t :: t in order <==> t in acc
    ensures forall c | c in TopTickers(TickerEntries(acc, order)) ::
      c.name != "" && c.value == TickerCount(entries, c.name) > 0
  {
    var stats := TickerEntries(acc, order);
    forall c | c in TopTickers(stats) ensures c.name != "" && c.value == TickerCount(entries, c.name) > 0 {
      assert c in multiset(TopTickers(stats));
      assert c in stats;
      var i :| 0 <= i < |stats| && stats[i] == c;
      assert order[i] in acc;
    }
  }
}
