/** The `diary` table of the record store (lib/db.ts): its schema, the SQL the
    store builds for it, and the CRUD operations as methods of a table object
    that holds the rows and the AUTOINCREMENT counter. */
module DiaryStore {
  import opened Common
  import opened Sql
  import Sorting

  /** A row of `diary`, as `rowToDiary` returns it. `kind` is the `type`
      column; the database holds any text there. */
  datatype DiaryRecord = DiaryRecord(
    id: int,
    date: string,
    kind: string,
    ticker: Option<string>,
    broker: Option<string>,
    quantity: Option<real>,
    price: Option<real>,
    currency: Option<string>,
    content: string,
    tags: Option<string>,
    createdAt: string,
    updatedAt: string)

  /** The date of an entry: the key the statistics and calendar pages group
      entries by. */
  function DateOf(r: DiaryRecord): string {
    r.date
  }

  /** The nine data keys a caller hands to `createDiary` or `updateDiary`. */
  datatype DiaryFields = DiaryFields(
    date: Js<string>,
    kind: Js<string>,
    ticker: Js<string>,
    broker: Js<string>,
    quantity: Js<real>,
    price: Js<real>,
    currency: Js<string>,
    content: Js<string>,
    tags: Js<string>)

  /** The options of `getAllDiary`; an absent or empty option filters nothing. */
  datatype DiaryFilter = DiaryFilter(
    startDate: Option<string>,
    endDate: Option<string>,
    kind: Option<string>,
    ticker: Option<string>)

  // ----- schema -----

  datatype Column = Id | Date | Kind | Ticker | Broker | Quantity | Price | Currency
                  | Content | Tags | CreatedAt | UpdatedAt

  function ColumnName(c: Column): (name: string)
    ensures '?' !in name
  {
    match c
    case Id => "id"
    case Date => "date"
    case Kind => "type"
    case Ticker => "ticker"
    case Broker => "broker"
    case Quantity => "quantity"
    case Price => "price"
    case Currency => "currency"
    case Content => "content"
    case Tags => "tags"
    case CreatedAt => "createdAt"
    case UpdatedAt => "updatedAt"
  }

  /** The columns the CREATE TABLE statement declares NOT NULL. */
  predicate NotNull(c: Column) {
    c == Date || c == Kind || c == Content
  }

  /** The column value of a row, as the database holds it. */
  function Value(r: DiaryRecord, c: Column): Arg {
    match c
    case Id => ArgInt(r.id)
    case Date => ArgText(r.date)
    case Kind => ArgText(r.kind)
    case Ticker => OptTextArg(r.ticker)
    case Broker => OptTextArg(r.broker)
    case Quantity => OptRealArg(r.quantity)
    case Price => OptRealArg(r.price)
    case Currency => OptTextArg(r.currency)
    case Content => ArgText(r.content)
    case Tags => OptTextArg(r.tags)
    case CreatedAt => ArgText(r.createdAt)
    case UpdatedAt => ArgText(r.updatedAt)
  }

  // ----- INSERT -----

  /** The column list of the INSERT statement. */
  const InsertColumns: seq<Column> :=
    [Date, Kind, Ticker, Broker, Quantity, Price, Currency, Content, Tags, CreatedAt, UpdatedAt]

  /** The INSERT statement: `INSERT INTO diary (<columns>) VALUES (?, ..., ?)`. */
  function InsertStatement(): seq<Token> {
    InsertInto(InsertHead, InsertNames())
  }

  const InsertHead := "INSERT INTO diary ("

  function InsertNames(): (names: seq<string>)
    ensures |names| == |InsertColumns|
    ensures forall i | 0 <= i < |names| :: '?' !in names[i]
  {
    seq(|InsertColumns|, i requires 0 <= i < |InsertColumns| => ColumnName(InsertColumns[i]))
  }

  /** The arguments `createDiary` binds: optional texts through `|| null`, the
      numbers through `?? null`, and one `now` for both timestamps. */
  function InsertArgs(d: DiaryFields, now: string): (args: seq<Arg>)
    ensures |args| == |InsertColumns|
  {
    [ TextArg(d.date), TextArg(d.kind),
      OptTextArg(OrNull(d.ticker)), OptTextArg(OrNull(d.broker)),
      OptRealArg(Coalesce(d.quantity)), OptRealArg(Coalesce(d.price)),
      OptTextArg(OrNull(d.currency)), TextArg(d.content), OptTextArg(OrNull(d.tags)),
      ArgText(now), ArgText(now) ]
  }

  /** The database accepts a row exactly when no NOT NULL column receives null
      or undefined. */
  predicate Accepts(args: seq<Arg>) {
    forall i | 0 <= i < |InsertColumns| && i < |args| :: NotNull(InsertColumns[i]) ==> !IsNullish(args[i])
  }

  /** The input has every required field. */
  predicate Insertable(d: DiaryFields) {
    d.date.Val? && d.kind.Val? && d.content.Val?
  }

  /** The row the INSERT stores under `id`: each listed column takes its argument. */
  function RowFromArgs(id: int, args: seq<Arg>): DiaryRecord
    requires |args| == |InsertColumns|
  {
    DiaryRecord(id, TextOf(args[0]), TextOf(args[1]), OptTextOf(args[2]), OptTextOf(args[3]),
      OptRealOf(args[4]), OptRealOf(args[5]), OptTextOf(args[6]), TextOf(args[7]),
      OptTextOf(args[8]), TextOf(args[9]), TextOf(args[10]))
  }

  /** `rowToDiary` reads each column back: a record rebuilt from its own
      column values is the record again. */
  lemma RowRoundTrip(r: DiaryRecord)
    ensures RowFromArgs(r.id, seq(|InsertColumns|, i requires 0 <= i < |InsertColumns| => Value(r, InsertColumns[i]))) == r
  {
  }

  /** The row `createDiary` stores: the input with empty optional texts turned
      into null, numbers kept even when 0, and both timestamps `now`. */
  function Stored(d: DiaryFields, id: int, now: string): (r: DiaryRecord)
    ensures r.id == id && r.createdAt == now && r.updatedAt == now
    ensures Insertable(d) ==> r.date == d.date.v && r.kind == d.kind.v && r.content == d.content.v
    ensures r.ticker == OrNull(d.ticker) && r.broker == OrNull(d.broker)
    ensures r.currency == OrNull(d.currency) && r.tags == OrNull(d.tags)
    ensures r.quantity == Coalesce(d.quantity) && r.price == Coalesce(d.price)
  {
    RowFromArgs(id, InsertArgs(d, now))
  }

  /** An insert fails exactly when a NOT NULL column of the schema gets null or
      undefined: for `diary`, when date, type or content is missing. */
  lemma InsertAcceptedIffRequiredPresent(d: DiaryFields, now: string)
    ensures Accepts(InsertArgs(d, now)) <==> Insertable(d)
  {
    var args := InsertArgs(d, now);
    assert InsertColumns[0] == Date && InsertColumns[1] == Kind && InsertColumns[7] == Content;
    if Insertable(d) {
      forall i | 0 <= i < |InsertColumns| && i < |args| && NotNull(InsertColumns[i])
        ensures !IsNullish(args[i])
      {
        assert i == 0 || i == 1 || i == 7;
      }
    }
  }

  /** Every column of the inserted row holds the argument bound for it. */
  lemma InsertStoresArgs(d: DiaryFields, id: int, now: string)
    requires Insertable(d)
    ensures forall i | 0 <= i < |InsertColumns| :: Value(Stored(d, id, now), InsertColumns[i]) == InsertArgs(d, now)[i]
    ensures Value(Stored(d, id, now), Id) == ArgInt(id)
  {
    var r := Stored(d, id, now);
    var args := InsertArgs(d, now);
    forall i | 0 <= i < |InsertColumns| ensures Value(r, InsertColumns[i]) == args[i] {
      if i == 2 || i == 3 || i == 6 || i == 8 {
        assert Value(r, InsertColumns[i]) == OptTextArg(OptTextOf(args[i]));
      }
    }
  }

  /** The INSERT text has one `?` per bound argument. */
  lemma InsertPlaceholders(d: DiaryFields, now: string)
    ensures Holes(InsertStatement()) == |InsertArgs(d, now)|
    ensures CountQ(Render(InsertStatement())) == |InsertArgs(d, now)|
  {
    assert '?' !in InsertHead;
    InsertIntoPlaceholders(InsertHead, InsertNames());
  }

  // ----- SELECT -----

  /** The conditions `getAllDiary` adds: an inclusive date range and exact
      type and ticker; SQL's `ticker = ?` is false on a NULL ticker. */
  predicate Matches(r: DiaryRecord, f: DiaryFilter) {
    && (Given(f.startDate) ==> StrLessEq(f.startDate.value, r.date))
    && (Given(f.endDate) ==> StrLessEq(r.date, f.endDate.value))
    && (Given(f.kind) ==> r.kind == f.kind.value)
    && (Given(f.ticker) ==> r.ticker == Some(f.ticker.value))
  }

  /** `ORDER BY date DESC, id DESC`: `a` may come before `b`. */
  predicate ListedBefore(a: DiaryRecord, b: DiaryRecord) {
    StrLess(b.date, a.date) || (a.date == b.date && a.id >= b.id)
  }

  lemma ListedBeforeTotalPreorder()
    ensures Sorting.TotalPreorder(ListedBefore)
  {
    forall a: DiaryRecord, b: DiaryRecord ensures ListedBefore(a, b) || ListedBefore(b, a) {
      StrLessTotal(a.date, b.date);
    }
    forall a: DiaryRecord, b: DiaryRecord, c: DiaryRecord | ListedBefore(a, b) && ListedBefore(b, c)
      ensures ListedBefore(a, c)
    {
      if StrLess(b.date, a.date) && StrLess(c.date, b.date) {
        StrLessTransitive(c.date, b.date, a.date);
      }
    }
  }

  /** The values bound to the SELECT, one per condition in the order added. */
  function FilterArgs(f: DiaryFilter): seq<string> {
    (if Given(f.startDate) then [f.startDate.value] else [])
    + (if Given(f.endDate) then [f.endDate.value] else [])
    + (if Given(f.kind) then [f.kind.value] else [])
    + (if Given(f.ticker) then [f.ticker.value] else [])
  }

  /** The fragments of `getAllDiary`'s statement. */
  const SelectHead := "SELECT * FROM diary WHERE 1=1"
  const FromDate := " AND date >= "
  const ToDate := " AND date <= "
  const KindIs := " AND type = "
  const TickerIs := " AND ticker = "
  const SelectOrder := " ORDER BY date DESC, id DESC"

  lemma SelectFragmentsPlain()
    ensures '?' !in SelectHead && '?' !in FromDate && '?' !in ToDate
    ensures '?' !in KindIs && '?' !in TickerIs && '?' !in SelectOrder
  {
  }

  /** `getAllDiary`'s statement, grown with `sql +=` and `params.push`. */
  method BuildSelect(f: DiaryFilter) returns (stmt: seq<Token>, params: seq<string>)
    ensures PlainText(stmt) && Holes(stmt) == |params|
    ensures CountQ(Render(stmt)) == |params|
    ensures params == FilterArgs(f)
  {
    SelectFragmentsPlain();
    stmt := [Text(SelectHead)];
    params := [];
    assert Holes(stmt) == 0;
    if Given(f.startDate) {
      stmt := AddCondition(stmt, FromDate);
      params := params + [f.startDate.value];
    }
    if Given(f.endDate) {
      stmt := AddCondition(stmt, ToDate);
      params := params + [f.endDate.value];
    }
    if Given(f.kind) {
      stmt := AddCondition(stmt, KindIs);
      params := params + [f.kind.value];
    }
    if Given(f.ticker) {
      stmt := AddCondition(stmt, TickerIs);
      params := params + [f.ticker.value];
    }
    stmt := AddText(stmt, SelectOrder);
    RenderedPlaceholders(stmt);
  }

  // ----- UPDATE -----

  /** The data columns `updateDiary` may set, in the order it tests them. */
  const DataColumns: seq<Column> := [Date, Kind, Ticker, Broker, Quantity, Price, Currency, Content, Tags]

  /** What `updateDiary` writes to a column: nothing when the key is
      `undefined`, otherwise the given value, `null` included. */
  function Assignment(p: DiaryFields, c: Column): Option<Arg> {
    match c
    case Date => if p.date.Undefined? then None else Some(TextArg(p.date))
    case Kind => if p.kind.Undefined? then None else Some(TextArg(p.kind))
    case Ticker => if p.ticker.Undefined? then None else Some(TextArg(p.ticker))
    case Broker => if p.broker.Undefined? then None else Some(TextArg(p.broker))
    case Quantity => if p.quantity.Undefined? then None else Some(RealArg(p.quantity))
    case Price => if p.price.Undefined? then None else Some(RealArg(p.price))
    case Currency => if p.currency.Undefined? then None else Some(TextArg(p.currency))
    case Content => if p.content.Undefined? then None else Some(TextArg(p.content))
    case Tags => if p.tags.Undefined? then None else Some(TextArg(p.tags))
    case _ => None
  }

  /** `col = ?` */
  function SetClause(c: Column): seq<Token> {
    [Text(ColumnName(c) + " = "), Param]
  }

  /** No NOT NULL column is set to null. */
  predicate Updatable(p: DiaryFields) {
    !p.date.Null? && !p.kind.Null? && !p.content.Null?
  }

  /** The SET list built so far, after testing the columns `done`: one column
      and one argument per supplied key, each column once. */
  ghost predicate Assigned(p: DiaryFields, done: seq<Column>, columns: seq<Column>, args: seq<Arg>) {
    && |args| == |columns|
    && Sorting.NoDuplicates(columns)
    && (forall k | 0 <= k < |columns| :: Assignment(p, columns[k]) == Some(args[k]))
    && (forall c :: c in columns <==> c in done && Assignment(p, c).Some?)
  }

  lemma DataColumnsDistinct()
    ensures Sorting.NoDuplicates(DataColumns)
  {
  }

  /** One `if (data.<key> !== undefined) { fields.push(...); values.push(...) }`,
      for the n-th key of DataColumns. */
  method AddAssignment(p: DiaryFields, n: nat, columns: seq<Column>, args: seq<Arg>)
    returns (columns': seq<Column>, args': seq<Arg>)
    requires n < |DataColumns| && Assigned(p, DataColumns[..n], columns, args)
    ensures Assigned(p, DataColumns[..n + 1], columns', args')
    ensures Assignment(p, DataColumns[n]).None? ==> columns' == columns && args' == args
  {
    var c := DataColumns[n];
    assert DataColumns[..n + 1] == DataColumns[..n] + [c];
    assert c !in DataColumns[..n] by {
      DataColumnsDistinct();
    }
    columns', args' := columns, args;
    var a := Assignment(p, c);
    if a.Some? {
      columns' := columns + [c];
      args' := args + [a.value];
    }
  }

  const UpdateHead := "UPDATE diary SET "
  const UpdateTail := " WHERE id = "

  lemma UpdateFragmentsPlain()
    ensures '?' !in UpdateHead && '?' !in UpdateTail && '?' !in ", "
  {
  }

  /** `col1 = ?, col2 = ?, ...` */
  function Clauses(columns: seq<Column>): (r: seq<seq<Token>>)
    ensures |r| == |columns|
    ensures forall k | 0 <= k < |columns| :: r[k] == SetClause(columns[k])
  {
    seq(|columns|, k requires 0 <= k < |columns| => SetClause(columns[k]))
  }

  /** The nine key tests of `updateDiary`, in source order. */
  method SuppliedAssignments(p: DiaryFields) returns (columns: seq<Column>, args: seq<Arg>)
    ensures Assigned(p, DataColumns, columns, args)
  {
    columns, args := [], [];
    columns, args := AddAssignment(p, 0, columns, args);  // date
    columns, args := AddAssignment(p, 1, columns, args);  // type
    columns, args := AddAssignment(p, 2, columns, args);  // ticker
    columns, args := AddAssignment(p, 3, columns, args);  // broker
    columns, args := AddAssignment(p, 4, columns, args);  // quantity
    columns, args := AddAssignment(p, 5, columns, args);  // price
    columns, args := AddAssignment(p, 6, columns, args);  // currency
    columns, args := AddAssignment(p, 7, columns, args);  // content
    columns, args := AddAssignment(p, 8, columns, args);  // tags
    assert DataColumns[..|DataColumns|] == DataColumns;
  }

  /** `updateDiary`'s statement: a SET clause and an argument for every key that
      is not `undefined`, then `updatedAt = ?` with `now`, then the id.
      `columns` is the list of columns the SET clauses name. */
  method BuildUpdate(id: int, p: DiaryFields, now: string)
    returns (stmt: seq<Token>, args: seq<Arg>, columns: seq<Column>)
    ensures |args| == |columns| + 1
    ensures PlainText(stmt) && Holes(stmt) == |args|
    ensures CountQ(Render(stmt)) == |args|
    ensures columns != [] && columns[|columns| - 1] == UpdatedAt
    ensures args[|args| - 2] == ArgText(now) && args[|args| - 1] == ArgInt(id)
    ensures forall c :: c in columns[..|columns| - 1] <==> c in DataColumns && Assignment(p, c).Some?
    ensures Sorting.NoDuplicates(columns)
    ensures forall k | 0 <= k < |columns| - 1 :: Assignment(p, columns[k]) == Some(args[k])
  {
    columns, args := SuppliedAssignments(p);
    ghost var supplied := columns;
    assert UpdatedAt !in supplied;
    columns := columns + [UpdatedAt];
    args := args + [ArgText(now)];
    assert columns[..|columns| - 1] == supplied;
    args := args + [ArgInt(id)];
    stmt := UpdateStatement(columns);
    UpdatePlaceholders(columns);
  }

  /** `UPDATE diary SET <fields joined by ", "> WHERE id = ?` */
  function UpdateStatement(columns: seq<Column>): seq<Token> {
    [Text(UpdateHead)] + Join(Clauses(columns), [Text(", ")]) + [Text(UpdateTail), Param]
  }

  /** One placeholder per SET clause and one for the id. */
  lemma UpdatePlaceholders(columns: seq<Column>)
    ensures PlainText(UpdateStatement(columns))
    ensures Holes(UpdateStatement(columns)) == |columns| + 1
    ensures CountQ(Render(UpdateStatement(columns))) == |columns| + 1
  {
    var fields := Clauses(columns);
    var list := Join(fields, [Text(", ")]);
    UpdateFragmentsPlain();
    ClausesCount(fields, columns);
    assert Holes([Text(", ")]) == 0;
    HolesJoin(fields, [Text(", ")]);
    PlainTextJoin(fields, [Text(", ")]);
    var head: seq<Token> := [Text(UpdateHead)];
    var tail: seq<Token> := [Text(UpdateTail), Param];
    assert Holes(head) == 0;
    assert tail[1..] == [Param] && [Param][1..] == [];
    assert Holes(tail) == 1;
    HolesAppend(head, list);
    HolesAppend(head + list, tail);
    PlainTextAppend(head, list);
    PlainTextAppend(head + list, tail);
    RenderedPlaceholders(UpdateStatement(columns));
  }

  lemma {:induction false} ClausesCount(fields: seq<seq<Token>>, columns: seq<Column>)
    requires |fields| == |columns|
    requires forall k | 0 <= k < |fields| :: fields[k] == SetClause(columns[k])
    ensures SumHoles(fields) == |fields|
    ensures forall k | 0 <= k < |fields| :: PlainText(fields[k])
  {
    if fields != [] {
      ClausesCount(fields[1..], columns[1..]);
      assert fields[0] == SetClause(columns[0]);
      assert fields[0][1..] == [Param] && [Param][1..] == [];
      assert Holes(fields[0]) == 1;
      forall k | 0 <= k < |fields| ensures PlainText(fields[k]) {
        assert '?' !in ColumnName(columns[k]) + " = " by {
          assert forall c | c in ColumnName(columns[k]) + " = " :: c in ColumnName(columns[k]) || c == ' ' || c == '=';
        }
      }
    }
  }

  /** The row after `UPDATE`: every SET column takes its value, `updatedAt`
      becomes `now`, and `id`, `createdAt` and every other column keep theirs. */
  function Patched(row: DiaryRecord, p: DiaryFields, now: string): (r: DiaryRecord)
    requires Updatable(p)
    ensures r.id == row.id && r.createdAt == row.createdAt && r.updatedAt == now
  {
    DiaryRecord(row.id,
      if p.date.Val? then p.date.v else row.date,
      if p.kind.Val? then p.kind.v else row.kind,
      PatchText(row.ticker, p.ticker),
      PatchText(row.broker, p.broker),
      PatchReal(row.quantity, p.quantity),
      PatchReal(row.price, p.price),
      PatchText(row.currency, p.currency),
      if p.content.Val? then p.content.v else row.content,
      PatchText(row.tags, p.tags),
      row.createdAt, now)
  }

  /** Every SET column of the updated row holds the argument bound for it, and
      every column the patch leaves out keeps its value. */
  lemma PatchedColumns(row: DiaryRecord, p: DiaryFields, now: string)
    requires Updatable(p)
    ensures forall c | c in DataColumns ::
      Value(Patched(row, p, now), c) == (match Assignment(p, c) case Some(a) => a case None => Value(row, c))
  {
    forall c | c in DataColumns
      ensures Value(Patched(row, p, now), c) == (match Assignment(p, c) case Some(a) => a case None => Value(row, c))
    {
      PatchedColumn(row, p, now, c);
    }
  }

  lemma PatchedColumn(row: DiaryRecord, p: DiaryFields, now: string, c: Column)
    requires Updatable(p) && c != Id && c != CreatedAt && c != UpdatedAt
    ensures Value(Patched(row, p, now), c) == (match Assignment(p, c) case Some(a) => a case None => Value(row, c))
  {
  }

  /** An UPDATE whose SET list gives a NOT NULL column null is refused: exactly
      when the patch clears date, type or content. */
  lemma UpdateRefusedIffNotNullCleared(p: DiaryFields)
    ensures !Updatable(p) <==> exists c | c in DataColumns :: NotNull(c) && Assignment(p, c) == Some(ArgNull)
  {
    if !Updatable(p) {
      if p.date.Null? { assert Assignment(p, Date) == Some(ArgNull) && Date in DataColumns; }
      else if p.kind.Null? { assert Assignment(p, Kind) == Some(ArgNull) && Kind in DataColumns; }
      else { assert Assignment(p, Content) == Some(ArgNull) && Content in DataColumns; }
    }
  }

  /** The database refuses the built UPDATE, which names a NOT NULL column
      with a null argument, exactly when the patch is not Updatable. */
  lemma RefusedIffNullWritten(p: DiaryFields, columns: seq<Column>, args: seq<Arg>)
    requires |args| == |columns| + 1 && columns != []
    requires forall c :: c in columns[..|columns| - 1] <==> c in DataColumns && Assignment(p, c).Some?
    requires forall k | 0 <= k < |columns| - 1 :: Assignment(p, columns[k]) == Some(args[k])
    ensures (exists k | 0 <= k < |columns| - 1 :: NotNull(columns[k]) && args[k] == ArgNull) <==> !Updatable(p)
  {
    UpdateRefusedIffNotNullCleared(p);
    if !Updatable(p) {
      var c :| c in DataColumns && NotNull(c) && Assignment(p, c) == Some(ArgNull);
      assert c in columns[..|columns| - 1];
      var k :| 0 <= k < |columns| - 1 && columns[k] == c;
      assert NotNull(columns[k]) && args[k] == ArgNull;
    }
    if exists k | 0 <= k < |columns| - 1 :: NotNull(columns[k]) && args[k] == ArgNull {
      var k :| 0 <= k < |columns| - 1 && NotNull(columns[k]) && args[k] == ArgNull;
      assert columns[k] in columns[..|columns| - 1];
    }
  }

  // ----- batch -----

  /** The records of a batch whose insert succeeds, in batch order. */
  function Insertables(records: seq<DiaryFields>): seq<DiaryFields> {
    if records == [] then []
    else if Insertable(records[|records| - 1]) then Insertables(records[..|records| - 1]) + [records[|records| - 1]]
    else Insertables(records[..|records| - 1])
  }

  /** The successful records are exactly the batch's insertable ones, and
      there are no more of them than records. */
  lemma {:induction false} InsertablesAreTheInsertable(records: seq<DiaryFields>)
    ensures |Insertables(records)| <= |records|
    ensures forall d :: d in Insertables(records) <==> d in records && Insertable(d)
  {
    if records != [] {
      var init := records[..|records| - 1];
      InsertablesAreTheInsertable(init);
      assert records == init + [records[|records| - 1]];
    }
  }

  /** The rows a batch adds: the k-th successful record gets id `start + k`. */
  function BatchRows(ok: seq<DiaryFields>, start: int, now: string): map<int, DiaryRecord> {
    Numbered(ok, start, StoreAt(now))
  }

  /** Storing a record under an id at the time `now`. */
  function StoreAt(now: string): (DiaryFields, int) -> DiaryRecord {
    (d, id) => Stored(d, id, now)
  }

  /** The batch's ids are consecutive from `start`, one per stored record. */
  lemma BatchRowsShape(ok: seq<DiaryFields>, start: int, now: string)
    ensures forall id :: id in BatchRows(ok, start, now) <==> start <= id < start + |ok|
    ensures forall k | 0 <= k < |ok| :: BatchRows(ok, start, now)[start + k] == Stored(ok[k], start + k, now)
  {
    NumberedShape(ok, start, StoreAt(now));
  }

  lemma InsertablesStep(records: seq<DiaryFields>, i: nat)
    requires i < |records|
    ensures Insertable(records[i]) ==> Insertables(records[..i + 1]) == Insertables(records[..i]) + [records[i]]
    ensures !Insertable(records[i]) ==> Insertables(records[..i + 1]) == Insertables(records[..i])
  {
    assert records[..i + 1][..i] == records[..i];
  }

  /** Storing the next successful record of a batch extends the batch's rows. */
  lemma BatchStep(before: map<int, DiaryRecord>, base: map<int, DiaryRecord>, done: seq<DiaryFields>,
                  d: DiaryFields, start: int, key: int, now: string)
    requires before == base + BatchRows(done, start, now) && key == start + |done|
    ensures before[key := Stored(d, key, now)] == base + BatchRows(done + [d], start, now)
  {
    NumberedStep(base, done, d, start, StoreAt(now));
  }

  /** The `diary` table: its rows by id and the next AUTOINCREMENT id, which
      never goes back, so an id is never reused. */
  class DiaryTable {
    var rows: map<int, DiaryRecord>
    var nextId: int

    ghost predicate Valid()
      reads this
    {
      1 <= nextId && forall id | id in rows :: 1 <= id < nextId && rows[id].id == id
    }

    constructor ()
      ensures Valid() && rows == map[] && nextId == 1
    {
      rows := map[];
      nextId := 1;
    }

    /** `getDiaryById`: the row, or absence; never an error. */
    method GetById(id: int) returns (r: Option<DiaryRecord>)
      ensures r.Some? <==> id in rows
      ensures r.Some? ==> r.value == rows[id]
    {
      if id in rows { r := Some(rows[id]); } else { r := None; }
    }

    /** INSERT: the database refuses the row when a NOT NULL column gets null
        or undefined; otherwise it stores it under the next id. */
    method Insert(d: DiaryFields, now: string) returns (id: Option<int>)
      requires Valid()
      modifies this
      ensures Valid()
      ensures id.Some? <==> Insertable(d)
      ensures id.Some? ==> (id.value == old(nextId) && id.value !in old(rows)
        && rows == old(rows)[id.value := Stored(d, id.value, now)] && nextId == old(nextId) + 1)
      ensures id.None? ==> rows == old(rows) && nextId == old(nextId)
    {
      var args := InsertArgs(d, now);
      InsertAcceptedIffRequiredPresent(d, now);
      if !Accepts(args) {
        return None;
      }
      var newId := nextId;
      rows := rows[newId := RowFromArgs(newId, args)];
      nextId := nextId + 1;
      return Some(newId);
    }

    /** `createDiary`: insert, then re-read the row by its new id. */
    method Create(d: DiaryFields, now: string) returns (r: Result<DiaryRecord>)
      requires Valid()
      modifies this
      ensures Valid()
      ensures r.Ok? <==> Insertable(d)
      ensures r.Ok? ==> (r.value == Stored(d, old(nextId), now) && r.value.id !in old(rows)
        && rows == old(rows)[r.value.id := r.value] && nextId == old(nextId) + 1)
      ensures r.Err? ==> rows == old(rows) && nextId == old(nextId)
    {
      var id := Insert(d, now);
      if id.None? {
        return Err("NOT NULL constraint failed");
      }
      var record := GetById(id.value);
      if record.None? {
        return Err("Failed to create diary record");
      }
      return Ok(record.value);
    }

    /** `getAllDiary`: the rows meeting every given filter, newest date first and
        higher id first within a date. */
    method GetAll(f: DiaryFilter) returns (result: seq<DiaryRecord>)
      requires Valid()
      ensures forall r :: r in result <==> r in rows.Values && Matches(r, f)
      ensures Sorting.StrictlySortedBy(result, ListedBefore)
    {
      var stmt, params := BuildSelect(f);
      var found: seq<DiaryRecord> := [];
      var id := 1;
      while id < nextId
        invariant 1 <= id <= nextId
        invariant forall k | 1 <= k < id && k in rows && Matches(rows[k], f) :: rows[k] in found
        invariant forall r | r in found :: r.id < id && r.id in rows && rows[r.id] == r && Matches(r, f)
        invariant forall i, j | 0 <= i < j < |found| :: found[i].id < found[j].id
      {
        if id in rows && Matches(rows[id], f) {
          found := found + [rows[id]];
        }
        id := id + 1;
      }
      forall r ensures r in found <==> r in rows.Values && Matches(r, f) {
        if r in rows.Values && Matches(r, f) {
          var k :| k in rows && rows[k] == r;
          assert rows[k] in found;
        }
      }
      ListedBeforeTotalPreorder();
      result := Sorting.Sort(found, ListedBefore);
      StrictOnDistinctIds(found, result);
    }

    /** `ORDER BY date DESC, id DESC` over rows with distinct ids is a strict
        order: no two listed rows tie. */
    static lemma StrictOnDistinctIds(found: seq<DiaryRecord>, result: seq<DiaryRecord>)
      requires forall i, j | 0 <= i < j < |found| :: found[i].id < found[j].id
      requires multiset(result) == multiset(found)
      requires Sorting.SortedBy(result, ListedBefore)
      ensures forall r :: r in result <==> r in found
      ensures Sorting.StrictlySortedBy(result, ListedBefore)
    {
      forall r ensures r in result <==> r in found {
        assert r in result <==> r in multiset(result);
        assert r in found <==> r in multiset(found);
      }
      assert Sorting.NoDuplicates(found) by {
        forall a, b | 0 <= a < b < |found| ensures found[a] != found[b] {
          assert found[a].id < found[b].id;
        }
      }
      Sorting.NoDuplicatesPermutation(found, result);
      forall i, j | 0 <= i < j < |result| ensures !ListedBefore(result[j], result[i]) {
        assert result[i] != result[j];
        assert result[i] in multiset(found) && result[j] in multiset(found);
        var a :| 0 <= a < |found| && found[a] == result[i];
        var b :| 0 <= b < |found| && found[b] == result[j];
        assert a != b;
        assert result[i].id != result[j].id;
        var x, y := result[i], result[j];
        assert ListedBefore(x, y);
        StrLessIrreflexive(x.date);
        if StrLess(y.date, x.date) {
          StrLessAsymmetric(y.date, x.date);
        }
      }
    }

    /** `updateDiary`: on a missing id nothing changes and the result is absence;
        a patch that sets a NOT NULL column to null makes the statement fail;
        otherwise only the supplied columns and `updatedAt` change. */
    method Update(id: int, p: DiaryFields, now: string) returns (r: Result<Option<DiaryRecord>>)
      requires Valid()
      modifies this
      ensures Valid() && nextId == old(nextId)
      ensures id !in old(rows) ==> r == Ok(None) && rows == old(rows)
      ensures id in old(rows) && !Updatable(p) ==> r.Err? && rows == old(rows)
      ensures id in old(rows) && Updatable(p) ==>
        r == Ok(Some(Patched(old(rows)[id], p, now))) && rows == old(rows)[id := Patched(old(rows)[id], p, now)]
    {
      var stmt, args, columns := BuildUpdate(id, p, now);
      if id in rows {
        RefusedIffNullWritten(p, columns, args);
        if exists k | 0 <= k < |columns| - 1 :: NotNull(columns[k]) && args[k] == ArgNull {
          return Err("NOT NULL constraint failed");
        }
        rows := rows[id := Patched(rows[id], p, now)];
      }
      var record := GetById(id);
      return Ok(record);
    }

    /** `deleteDiary`: true exactly when a row with that id existed; afterwards
        there is none. */
    method Delete(id: int) returns (existed: bool)
      requires Valid()
      modifies this
      ensures Valid()
      ensures existed <==> id in old(rows)
      ensures rows == old(rows) - {id} && nextId == old(nextId)
      ensures id !in rows
    {
      existed := id in rows;
      rows := rows - {id};
    }

    /** `createDiaryBatch`: every record is tried on its own with one shared
        `now`; a refused record is skipped (the source logs it) and the count of
        stored records is returned. */
    method CreateBatch(records: seq<DiaryFields>, now: string) returns (created: nat)
      requires Valid()
      modifies this
      ensures Valid()
      ensures created == |Insertables(records)|
      ensures nextId == old(nextId) + created
      ensures rows == old(rows) + BatchRows(Insertables(records), old(nextId), now)
    {
      created := 0;
      var i := 0;
      while i < |records|
        invariant 0 <= i <= |records|
        invariant Valid()
        invariant created == |Insertables(records[..i])|
        invariant nextId == old(nextId) + created
        invariant rows == old(rows) + BatchRows(Insertables(records[..i]), old(nextId), now)
      {
        InsertablesStep(records, i);
        ghost var before := Insertables(records[..i]);
        ghost var before_rows, before_next := rows, nextId;
        var id := Insert(records[i], now);
        if id.Some? {
          assert id.value == before_next;
          assert rows == before_rows[before_next := Stored(records[i], before_next, now)];
          BatchStep(before_rows, old(rows), before, records[i], old(nextId), before_next, now);
          created := created + 1;
        }
        i := i + 1;
      }
      assert records[..i] == records;
    }
  }

  /** The listing contract determines the listing: two results that both hold
      exactly the matching rows in strict ListedBefore order are equal. */
  lemma ListingIsDetermined(rows: map<int, DiaryRecord>, f: DiaryFilter, a: seq<DiaryRecord>, b: seq<DiaryRecord>)
    requires forall r :: r in a <==> r in rows.Values && Matches(r, f)
    requires forall r :: r in b <==> r in rows.Values && Matches(r, f)
    requires Sorting.StrictlySortedBy(a, ListedBefore) && Sorting.StrictlySortedBy(b, ListedBefore)
    ensures a == b
  {
    Sorting.StrictNoDuplicates(a, ListedBefore);
    Sorting.StrictNoDuplicates(b, ListedBefore);
    Sorting.SameElementsSameMultiset(a, b);
    Sorting.StrictlySortedUnique(a, b, ListedBefore);
  }
}
