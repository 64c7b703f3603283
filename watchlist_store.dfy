/** The `watchlist` table of the record store (lib/db.ts): its schema, the SQL
    the store builds for it, and the CRUD operations as methods of a table
    object that holds the rows and the AUTOINCREMENT counter. */
module WatchlistStore {
  import opened Common
  import opened Sql
  import Sorting

  /** A row of `watchlist`, as `rowToWatchlist` returns it. */
  datatype WatchlistRecord = WatchlistRecord(
    id: int,
    ticker: string,
    name: string,
    exchange: Option<string>,
    category: string,
    tags: string,
    thesis: string,
    risk: Option<string>,
    notes: Option<string>,
    conviction: Option<real>,
    positionSize: Option<string>,
    addedDate: string,
    status: Option<string>,
    createdAt: string,
    updatedAt: string)

  /** The twelve data keys a caller hands to `createWatchlist` or `updateWatchlist`. */
  datatype WatchlistFields = WatchlistFields(
    ticker: Js<string>,
    name: Js<string>,
    exchange: Js<string>,
    category: Js<string>,
    tags: Js<string>,
    thesis: Js<string>,
    risk: Js<string>,
    notes: Js<string>,
    conviction: Js<real>,
    positionSize: Js<string>,
    addedDate: Js<string>,
    status: Js<string>)

  /** The options of `getAllWatchlist`; an absent or empty option filters nothing. */
  datatype WatchlistFilter = WatchlistFilter(
    category: Option<string>,
    status: Option<string>,
    search: Option<string>)

  // ----- schema -----

  datatype Column = Id | Ticker | Name | Exchange | Category | Tags | Thesis | Risk | Notes
                  | Conviction | PositionSize | AddedDate | Status | CreatedAt | UpdatedAt

  function ColumnName(c: Column): (name: string)
    ensures '?' !in name
  {
    match c
    case Id => "id"
    case Ticker => "ticker"
    case Name => "name"
    case Exchange => "exchange"
    case Category => "category"
    case Tags => "tags"
    case Thesis => "thesis"
    case Risk => "risk"
    case Notes => "notes"
    case Conviction => "conviction"
    case PositionSize => "positionSize"
    case AddedDate => "addedDate"
    case Status => "status"
    case CreatedAt => "createdAt"
    case UpdatedAt => "updatedAt"
  }

  /** The columns the CREATE TABLE statement declares NOT NULL. */
  predicate NotNull(c: Column) {
    c == Ticker || c == Name || c == Category || c == Tags || c == Thesis || c == AddedDate
  }

  /** The column value of a row, as the database holds it. */
  function Value(r: WatchlistRecord, c: Column): Arg {
    match c
    case Id => ArgInt(r.id)
    case Ticker => ArgText(r.ticker)
    case Name => ArgText(r.name)
    case Exchange => OptTextArg(r.exchange)
    case Category => ArgText(r.category)
    case Tags => ArgText(r.tags)
    case Thesis => ArgText(r.thesis)
    case Risk => OptTextArg(r.risk)
    case Notes => OptTextArg(r.notes)
    case Conviction => OptRealArg(r.conviction)
    case PositionSize => OptTextArg(r.positionSize)
    case AddedDate => ArgText(r.addedDate)
    case Status => OptTextArg(r.status)
    case CreatedAt => ArgText(r.createdAt)
    case UpdatedAt => ArgText(r.updatedAt)
  }

  // ----- INSERT -----

  /** The column list of the INSERT statement. */
  const InsertColumns: seq<Column> :=
    [Ticker, Name, Exchange, Category, Tags, Thesis, Risk, Notes, Conviction, PositionSize,
     AddedDate, Status, CreatedAt, UpdatedAt]

  /** The INSERT statement: `INSERT INTO watchlist (<columns>) VALUES (?, ..., ?)`.
      The batch's `INSERT OR REPLACE` differs only in its first words: it names
      no id, so it never meets an existing row and inserts like this one. */
  function InsertStatement(): seq<Token> {
    InsertInto(InsertHead, InsertNames())
  }

  const InsertHead := "INSERT INTO watchlist ("

  function InsertNames(): (names: seq<string>)
    ensures |names| == |InsertColumns|
    ensures forall i | 0 <= i < |names| :: '?' !in names[i]
  {
    seq(|InsertColumns|, i requires 0 <= i < |InsertColumns| => ColumnName(InsertColumns[i]))
  }

  /** The arguments `createWatchlist` binds: `exchange`, `risk`, `notes`,
      `positionSize` and `status` through `|| null`, `conviction` through
      `?? null`, the required keys as given, and one `now` for both timestamps. */
  function InsertArgs(d: WatchlistFields, now: string): (args: seq<Arg>)
    ensures |args| == |InsertColumns|
  {
    [ TextArg(d.ticker), TextArg(d.name), OptTextArg(OrNull(d.exchange)),
      TextArg(d.category), TextArg(d.tags), TextArg(d.thesis),
      OptTextArg(OrNull(d.risk)), OptTextArg(OrNull(d.notes)),
      OptRealArg(Coalesce(d.conviction)), OptTextArg(OrNull(d.positionSize)),
      TextArg(d.addedDate), OptTextArg(OrNull(d.status)),
      ArgText(now), ArgText(now) ]
  }

  /** The database accepts a row exactly when no NOT NULL column receives null
      or undefined. */
  predicate Accepts(args: seq<Arg>) {
    forall i | 0 <= i < |InsertColumns| && i < |args| :: NotNull(InsertColumns[i]) ==> !IsNullish(args[i])
  }

  /** The input has every required field. */
  predicate Insertable(d: WatchlistFields) {
    d.ticker.Val? && d.name.Val? && d.category.Val? && d.tags.Val? && d.thesis.Val? && d.addedDate.Val?
  }

  /** The row the INSERT stores under `id`: each listed column takes its argument. */
  function RowFromArgs(id: int, args: seq<Arg>): WatchlistRecord
    requires |args| == |InsertColumns|
  {
    WatchlistRecord(id, TextOf(args[0]), TextOf(args[1]), OptTextOf(args[2]), TextOf(args[3]),
      TextOf(args[4]), TextOf(args[5]), OptTextOf(args[6]), OptTextOf(args[7]),
      OptRealOf(args[8]), OptTextOf(args[9]), TextOf(args[10]), OptTextOf(args[11]),
      TextOf(args[12]), TextOf(args[13]))
  }

  /** `rowToWatchlist` reads each column back: a record rebuilt from its own
      column values is the record again. */
  lemma RowRoundTrip(r: WatchlistRecord)
    ensures RowFromArgs(r.id, seq(|InsertColumns|, i requires 0 <= i < |InsertColumns| => Value(r, InsertColumns[i]))) == r
  {
  }

  /** The row `createWatchlist` stores: the input with the empty optional texts
      turned into null, a conviction of 0 kept, and both timestamps `now`. */
  function Stored(d: WatchlistFields, id: int, now: string): (r: WatchlistRecord)
    ensures r.id == id && r.createdAt == now && r.updatedAt == now
    ensures Insertable(d) ==> (r.ticker == d.ticker.v && r.name == d.name.v && r.category == d.category.v
      && r.tags == d.tags.v && r.thesis == d.thesis.v && r.addedDate == d.addedDate.v)
    ensures r.exchange == OrNull(d.exchange) && r.risk == OrNull(d.risk) && r.notes == OrNull(d.notes)
    ensures r.positionSize == OrNull(d.positionSize) && r.status == OrNull(d.status)
    ensures r.conviction == Coalesce(d.conviction)
  {
    RowFromArgs(id, InsertArgs(d, now))
  }

  /** An insert fails exactly when a NOT NULL column of the schema gets null or
      undefined: for `watchlist`, when ticker, name, category, tags, thesis or
      addedDate is missing. */
  lemma InsertAcceptedIffRequiredPresent(d: WatchlistFields, now: string)
    ensures Accepts(InsertArgs(d, now)) <==> Insertable(d)
  {
    var args := InsertArgs(d, now);
    assert InsertColumns[0] == Ticker && InsertColumns[1] == Name && InsertColumns[3] == Category;
    assert InsertColumns[4] == Tags && InsertColumns[5] == Thesis && InsertColumns[10] == AddedDate;
    if Insertable(d) {
      forall i | 0 <= i < |InsertColumns| && i < |args| && NotNull(InsertColumns[i])
        ensures !IsNullish(args[i])
      {
        assert i == 0 || i == 1 || i == 3 || i == 4 || i == 5 || i == 10;
      }
    }
  }

  /** Every column of the inserted row holds the argument bound for it. */
  lemma InsertStoresArgs(d: WatchlistFields, id: int, now: string)
    requires Insertable(d)
    ensures forall i | 0 <= i < |InsertColumns| :: Value(Stored(d, id, now), InsertColumns[i]) == InsertArgs(d, now)[i]
    ensures Value(Stored(d, id, now), Id) == ArgInt(id)
  {
    var r := Stored(d, id, now);
    var args := InsertArgs(d, now);
    forall i | 0 <= i < |InsertColumns| ensures Value(r, InsertColumns[i]) == args[i] {
      if i == 2 || i == 6 || i == 7 || i == 9 || i == 11 {
        assert Value(r, InsertColumns[i]) == OptTextArg(OptTextOf(args[i]));
      } else if i == 8 {
        assert Value(r, InsertColumns[i]) == OptRealArg(OptRealOf(args[i]));
      }
    }
  }

  /** The INSERT text has one `?` per bound argument. */
  lemma InsertPlaceholders(d: WatchlistFields, now: string)
    ensures Holes(InsertStatement()) == |InsertArgs(d, now)|
    ensures CountQ(Render(InsertStatement())) == |InsertArgs(d, now)|
  {
    InsertStatementPlaceholders();
  }

  lemma InsertStatementPlaceholders()
    ensures Holes(InsertStatement()) == |InsertColumns|
    ensures CountQ(Render(InsertStatement())) == |InsertColumns|
  {
    assert '?' !in InsertHead;
    InsertIntoPlaceholders(InsertHead, InsertNames());
  }

  // ----- SELECT -----

  /** The `%s%` pattern `getAllWatchlist` binds for a search string. */
  function SearchPattern(s: string): string {
    "%" + s + "%"
  }

  /** The conditions `getAllWatchlist` adds: exact category and status (false
      on a NULL status), and the search pattern LIKE-matching ticker or name. */
  predicate Matches(r: WatchlistRecord, f: WatchlistFilter) {
    && (Given(f.category) ==> r.category == f.category.value)
    && (Given(f.status) ==> r.status == Some(f.status.value))
    && (Given(f.search) ==>
          Like(SearchPattern(f.search.value), r.ticker) || Like(SearchPattern(f.search.value), r.name))
  }

  /** For a search string without `%` or `_`, the search is an ASCII
      case-insensitive substring test on ticker or name. */
  lemma SearchIsSubstring(r: WatchlistRecord, s: string)
    requires '%' !in s && '_' !in s
    ensures Like(SearchPattern(s), r.ticker) <==> Contains(FoldAll(r.ticker), FoldAll(s))
    ensures Like(SearchPattern(s), r.name) <==> Contains(FoldAll(r.name), FoldAll(s))
  {
    LikeSubstring(s, r.ticker);
    LikeSubstring(s, r.name);
  }

  /** `ORDER BY addedDate DESC, id DESC`: `a` may come before `b`. */
  predicate ListedBefore(a: WatchlistRecord, b: WatchlistRecord) {
    StrLess(b.addedDate, a.addedDate) || (a.addedDate == b.addedDate && a.id >= b.id)
  }

  lemma ListedBeforeTotalPreorder()
    ensures Sorting.TotalPreorder(ListedBefore)
  {
    forall a: WatchlistRecord, b: WatchlistRecord ensures ListedBefore(a, b) || ListedBefore(b, a) {
      StrLessTotal(a.addedDate, b.addedDate);
    }
    forall a: WatchlistRecord, b: WatchlistRecord, c: WatchlistRecord | ListedBefore(a, b) && ListedBefore(b, c)
      ensures ListedBefore(a, c)
    {
      if StrLess(b.addedDate, a.addedDate) && StrLess(c.addedDate, b.addedDate) {
        StrLessTransitive(c.addedDate, b.addedDate, a.addedDate);
      }
    }
  }

  /** The values bound to the SELECT, in the order the conditions are added;
      the search pattern is bound twice. */
  function FilterArgs(f: WatchlistFilter): seq<string> {
    (if Given(f.category) then [f.category.value] else [])
    + (if Given(f.status) then [f.status.value] else [])
    + (if Given(f.search) then [SearchPattern(f.search.value), SearchPattern(f.search.value)] else [])
  }

  /** The fragments of `getAllWatchlist`'s statement. */
  const SelectHead := "SELECT * FROM watchlist WHERE 1=1"
  const CategoryIs := " AND category = "
  const StatusIs := " AND status = "
  const TickerLike := " AND (ticker LIKE "
  const NameLike := " OR name LIKE "
  const Close := ")"
  const SelectOrder := " ORDER BY addedDate DESC, id DESC"

  lemma SelectFragmentsPlain()
    ensures '?' !in SelectHead && '?' !in CategoryIs && '?' !in StatusIs
    ensures '?' !in TickerLike && '?' !in NameLike && '?' !in Close && '?' !in SelectOrder
  {
    EndsPlain();
  }

  lemma EndsPlain()
    ensures '?' !in SelectHead && '?' !in SelectOrder
  {
  }

  /** `getAllWatchlist`'s statement, grown with `sql +=` and `params.push`. */
  method BuildSelect(f: WatchlistFilter) returns (stmt: seq<Token>, params: seq<string>)
    ensures PlainText(stmt) && Holes(stmt) == |params|
    ensures CountQ(Render(stmt)) == |params|
    ensures params == FilterArgs(f)
  {
    SelectFragmentsPlain();
    stmt := [Text(SelectHead)];
    params := [];
    assert Holes(stmt) == 0;
    if Given(f.category) {
      stmt := AddCondition(stmt, CategoryIs);
      params := params + [f.category.value];
    }
    if Given(f.status) {
      stmt := AddCondition(stmt, StatusIs);
      params := params + [f.status.value];
    }
    if Given(f.search) {
      stmt := AddCondition(stmt, TickerLike);
      stmt := AddCondition(stmt, NameLike);
      stmt := AddText(stmt, Close);
      params := params + [SearchPattern(f.search.value), SearchPattern(f.search.value)];
    }
    stmt := AddText(stmt, SelectOrder);
    RenderedPlaceholders(stmt);
  }

  const TickerIs := "SELECT * FROM watchlist WHERE ticker = "

  /** `getWatchlistByTicker`'s statement: one condition, one argument. */
  lemma TickerLookupPlaceholders()
    ensures PlainText([Text(TickerIs), Param]) && Holes([Text(TickerIs), Param]) == 1
    ensures CountQ(Render([Text(TickerIs), Param])) == 1
  {
    assert '?' !in TickerIs;
    assert Holes([Text(TickerIs)]) == 0;
    HolesAppend([Text(TickerIs)], [Param]);
    assert [Text(TickerIs)] + [Param] == [Text(TickerIs), Param];
    RenderedPlaceholders([Text(TickerIs), Param]);
  }

  // ----- UPDATE -----

  /** The data columns `updateWatchlist` may set, in the order it tests them. */
  const DataColumns: seq<Column> :=
    [Ticker, Name, Exchange, Category, Tags, Thesis, Risk, Notes, Conviction, PositionSize, AddedDate, Status]

  lemma DataColumnsDistinct()
    ensures Sorting.NoDuplicates(DataColumns)
  {
  }

  /** What `updateWatchlist` writes to a column: nothing when the key is
      `undefined`, otherwise the given value, `null` included. */
  function Assignment(p: WatchlistFields, c: Column): Option<Arg> {
    match c
    case Ticker => if p.ticker.Undefined? then None else Some(TextArg(p.ticker))
    case Name => if p.name.Undefined? then None else Some(TextArg(p.name))
    case Exchange => if p.exchange.Undefined? then None else Some(TextArg(p.exchange))
    case Category => if p.category.Undefined? then None else Some(TextArg(p.category))
    case Tags => if p.tags.Undefined? then None else Some(TextArg(p.tags))
    case Thesis => if p.thesis.Undefined? then None else Some(TextArg(p.thesis))
    case Risk => if p.risk.Undefined? then None else Some(TextArg(p.risk))
    case Notes => if p.notes.Undefined? then None else Some(TextArg(p.notes))
    case Conviction => if p.conviction.Undefined? then None else Some(RealArg(p.conviction))
    case PositionSize => if p.positionSize.Undefined? then None else Some(TextArg(p.positionSize))
    case AddedDate => if p.addedDate.Undefined? then None else Some(TextArg(p.addedDate))
    case Status => if p.status.Undefined? then None else Some(TextArg(p.status))
    case _ => None
  }

  /** `col = ?` */
  function SetClause(c: Column): seq<Token> {
    [Text(ColumnName(c) + " = "), Param]
  }

  /** No NOT NULL column is set to null. */
  predicate Updatable(p: WatchlistFields) {
    !p.ticker.Null? && !p.name.Null? && !p.category.Null? && !p.tags.Null? && !p.thesis.Null?
    && !p.addedDate.Null?
  }

  /** The SET list built so far, after testing the columns `done`: one column
      and one argument per supplied key, each column once. */
  ghost predicate Assigned(p: WatchlistFields, done: seq<Column>, columns: seq<Column>, args: seq<Arg>) {
    && |args| == |columns|
    && Sorting.NoDuplicates(columns)
    && (forall k | 0 <= k < |columns| :: Assignment(p, columns[k]) == Some(args[k]))
    && (forall c :: c in columns <==> c in done && Assignment(p, c).Some?)
  }

  /** One `if (data.<key> !== undefined) { fields.push(...); args.push(...) }`,
      for the n-th key of DataColumns. */
  method AddAssignment(p: WatchlistFields, n: nat, columns: seq<Column>, args: seq<Arg>)
    returns (columns': seq<Column>, args': seq<Arg>)
    requires n < |DataColumns| && Assigned(p, DataColumns[..n], columns, args)
    ensures Assigned(p, DataColumns[..n + 1], columns', args')
    ensures Assignment(p, DataColumns[n]).None? ==> columns' == columns && args' == args
  {
    var c := DataColumns[n];
    assert DataColumns[..n + 1] == DataColumns[..n] + [c];
    assert c !in DataColumns[..n] by {
      DataColumnsDistinct();
    }
    columns', args' := columns, args;
    var a := Assignment(p, c);
    if a.Some? {
      columns' := columns + [c];
      args' := args + [a.value];
    }
  }

  /** The twelve key tests of `updateWatchlist`, in source order. */
  method SuppliedAssignments(p: WatchlistFields) returns (columns: seq<Column>, args: seq<Arg>)
    ensures Assigned(p, DataColumns, columns, args)
  {
    columns, args := [], [];
    columns, args := AddAssignment(p, 0, columns, args);  // ticker
    columns, args := AddAssignment(p, 1, columns, args);  // name
    columns, args := AddAssignment(p, 2, columns, args);  // exchange
    columns, args := AddAssignment(p, 3, columns, args);  // category
    columns, args := AddAssignment(p, 4, columns, args);  // tags
    columns, args := AddAssignment(p, 5, columns, args);  // thesis
    columns, args := AddAssignment(p, 6, columns, args);  // risk
    columns, args := AddAssignment(p, 7, columns, args);  // notes
    columns, args := AddAssignment(p, 8, columns, args);  // conviction
    columns, args := AddAssignment(p, 9, columns, args);  // positionSize
    columns, args := AddAssignment(p, 10, columns, args);  // addedDate
    columns, args := AddAssignment(p, 11, columns, args);  // status
    assert DataColumns[..|DataColumns|] == DataColumns;
  }

  const UpdateHead := "UPDATE watchlist SET "
  const UpdateTail := " WHERE id = "

  lemma UpdateFragmentsPlain()
    ensures '?' !in UpdateHead && '?' !in UpdateTail && '?' !in ", "
  {
  }

  /** `col1 = ?, col2 = ?, ...` */
  function Clauses(columns: seq<Column>): (r: seq<seq<Token>>)
    ensures |r| == |columns|
    ensures forall k | 0 <= k < |columns| :: r[k] == SetClause(columns[k])
  {
    seq(|columns|, k requires 0 <= k < |columns| => SetClause(columns[k]))
  }

  /** `updateWatchlist`'s statement: a SET clause and an argument for every key
      that is not `undefined`, then `updatedAt = ?` with `now`, then the id.
      `columns` is the list of columns the SET clauses name. */
  method BuildUpdate(id: int, p: WatchlistFields, now: string)
    returns (stmt: seq<Token>, args: seq<Arg>, columns: seq<Column>)
    ensures |args| == |columns| + 1
    ensures PlainText(stmt) && Holes(stmt) == |args|
    ensures CountQ(Render(stmt)) == |args|
    ensures columns != [] && columns[|columns| - 1] == UpdatedAt
    ensures args[|args| - 2] == ArgText(now) && args[|args| - 1] == ArgInt(id)
    ensures forall c :: c in columns[..|columns| - 1] <==> c in DataColumns && Assignment(p, c).Some?
    ensures Sorting.NoDuplicates(columns)
    ensures forall k | 0 <= k < |columns| - 1 :: Assignment(p, columns[k]) == Some(args[k])
  {
    columns, args := SuppliedAssignments(p);
    ghost var supplied := columns;
    assert UpdatedAt !in supplied;
    columns := columns + [UpdatedAt];
    args := args + [ArgText(now)];
    assert columns[..|columns| - 1] == supplied;
    args := args + [ArgInt(id)];
    stmt := UpdateStatement(columns);
    UpdatePlaceholders(columns);
  }

  /** `UPDATE watchlist SET <fields joined by ", "> WHERE id = ?` */
  function UpdateStatement(columns: seq<Column>): seq<Token> {
    [Text(UpdateHead)] + Join(Clauses(columns), [Text(", ")]) + [Text(UpdateTail), Param]
  }

  /** One placeholder per SET clause and one for the id. */
  lemma UpdatePlaceholders(columns: seq<Column>)
    ensures PlainText(UpdateStatement(columns))
    ensures Holes(UpdateStatement(columns)) == |columns| + 1
    ensures CountQ(Render(UpdateStatement(columns))) == |columns| + 1
  {
    var fields := Clauses(columns);
    var list := Join(fields, [Text(", ")]);
    UpdateFragmentsPlain();
    ClausesCount(fields, columns);
    assert Holes([Text(", ")]) == 0;
    HolesJoin(fields, [Text(", ")]);
    PlainTextJoin(fields, [Text(", ")]);
    var head: seq<Token> := [Text(UpdateHead)];
    var tail: seq<Token> := [Text(UpdateTail), Param];
    assert Holes(head) == 0;
    assert tail[1..] == [Param] && [Param][1..] == [];
    assert Holes(tail) == 1;
    HolesAppend(head, list);
    HolesAppend(head + list, tail);
    PlainTextAppend(head, list);
    PlainTextAppend(head + list, tail);
    RenderedPlaceholders(UpdateStatement(columns));
  }

  lemma {:induction false} ClausesCount(fields: seq<seq<Token>>, columns: seq<Column>)
    requires |fields| == |columns|
    requires forall k | 0 <= k < |fields| :: fields[k] == SetClause(columns[k])
    ensures SumHoles(fields) == |fields|
    ensures forall k | 0 <= k < |fields| :: PlainText(fields[k])
  {
    if fields != [] {
      ClausesCount(fields[1..], columns[1..]);
      assert fields[0] == SetClause(columns[0]);
      assert fields[0][1..] == [Param] && [Param][1..] == [];
      assert Holes(fields[0]) == 1;
      forall k | 0 <= k < |fields| ensures PlainText(fields[k]) {
        assert '?' !in ColumnName(columns[k]) + " = " by {
          assert forall c | c in ColumnName(columns[k]) + " = " :: c in ColumnName(columns[k]) || c == ' ' || c == '=';
        }
      }
    }
  }

  /** The row after `UPDATE`: every SET column takes its value, `updatedAt`
      becomes `now`, and `id`, `createdAt` and every other column keep theirs. */
  function Patched(row: WatchlistRecord, p: WatchlistFields, now: string): (r: WatchlistRecord)
    requires Updatable(p)
    ensures r.id == row.id && r.createdAt == row.createdAt && r.updatedAt == now
  {
    WatchlistRecord(row.id,
      if p.ticker.Val? then p.ticker.v else row.ticker,
      if p.name.Val? then p.name.v else row.name,
      PatchText(row.exchange, p.exchange),
      if p.category.Val? then p.category.v else row.category,
      if p.tags.Val? then p.tags.v else row.tags,
      if p.thesis.Val? then p.thesis.v else row.thesis,
      PatchText(row.risk, p.risk),
      PatchText(row.notes, p.notes),
      PatchReal(row.conviction, p.conviction),
      PatchText(row.positionSize, p.positionSize),
      if p.addedDate.Val? then p.addedDate.v else row.addedDate,
      PatchText(row.status, p.status),
      row.createdAt, now)
  }

  /** Every SET column of the updated row holds the argument bound for it, and
      every column the patch leaves out keeps its value. */
  lemma PatchedColumns(row: WatchlistRecord, p: WatchlistFields, now: string)
    requires Updatable(p)
    ensures forall c | c in DataColumns ::
      Value(Patched(row, p, now), c) == (match Assignment(p, c) case Some(a) => a case None => Value(row, c))
  {
    forall c | c in DataColumns
      ensures Value(Patched(row, p, now), c) == (match Assignment(p, c) case Some(a) => a case None => Value(row, c))
    {
      PatchedColumn(row, p, now, c);
    }
  }

  lemma PatchedColumn(row: WatchlistRecord, p: WatchlistFields, now: string, c: Column)
    requires Updatable(p) && c != Id && c != CreatedAt && c != UpdatedAt
    ensures Value(Patched(row, p, now), c) == (match Assignment(p, c) case Some(a) => a case None => Value(row, c))
  {
  }

  /** An UPDATE whose SET list gives a NOT NULL column null is refused: exactly
      when the patch clears ticker, name, category, tags, thesis or addedDate. */
  lemma UpdateRefusedIffNotNullCleared(p: WatchlistFields)
    ensures !Updatable(p) <==> exists c | c in DataColumns :: NotNull(c) && Assignment(p, c) == Some(ArgNull)
  {
    if !Updatable(p) {
      if p.ticker.Null? { assert Assignment(p, Ticker) == Some(ArgNull) && Ticker in DataColumns; }
      else if p.name.Null? { assert Assignment(p, Name) == Some(ArgNull) && Name in DataColumns; }
      else if p.category.Null? { assert Assignment(p, Category) == Some(ArgNull) && Category in DataColumns; }
      else if p.tags.Null? { assert Assignment(p, Tags) == Some(ArgNull) && Tags in DataColumns; }
      else if p.thesis.Null? { assert Assignment(p, Thesis) == Some(ArgNull) && Thesis in DataColumns; }
      else { assert Assignment(p, AddedDate) == Some(ArgNull) && AddedDate in DataColumns; }
    }
  }

  /** The database refuses the built UPDATE, which names a NOT NULL column
      with a null argument, exactly when the patch is not Updatable. */
  lemma RefusedIffNullWritten(p: WatchlistFields, columns: seq<Column>, args: seq<Arg>)
    requires |args| == |columns| + 1 && columns != []
    requires forall c :: c in columns[..|columns| - 1] <==> c in DataColumns && Assignment(p, c).Some?
    requires forall k | 0 <= k < |columns| - 1 :: Assignment(p, columns[k]) == Some(args[k])
    ensures (exists k | 0 <= k < |columns| - 1 :: NotNull(columns[k]) && args[k] == ArgNull) <==> !Updatable(p)
  {
    UpdateRefusedIffNotNullCleared(p);
    if !Updatable(p) {
      var c :| c in DataColumns && NotNull(c) && Assignment(p, c) == Some(ArgNull);
      assert c in columns[..|columns| - 1];
      var k :| 0 <= k < |columns| - 1 && columns[k] == c;
      assert NotNull(columns[k]) && args[k] == ArgNull;
    }
    if exists k | 0 <= k < |columns| - 1 :: NotNull(columns[k]) && args[k] == ArgNull {
      var k :| 0 <= k < |columns| - 1 && NotNull(columns[k]) && args[k] == ArgNull;
      assert columns[k] in columns[..|columns| - 1];
    }
  }

  // ----- batch -----

  /** The records of a batch whose insert succeeds, in batch order. */
  function Insertables(records: seq<WatchlistFields>): seq<WatchlistFields> {
    if records == [] then []
    else if Insertable(records[|records| - 1]) then Insertables(records[..|records| - 1]) + [records[|records| - 1]]
    else Insertables(records[..|records| - 1])
  }

  /** The successful records are exactly the batch's insertable ones, and
      there are no more of them than records. */
  lemma {:induction false} InsertablesAreTheInsertable(records: seq<WatchlistFields>)
    ensures |Insertables(records)| <= |records|
    ensures forall d :: d in Insertables(records) <==> d in records && Insertable(d)
  {
    if records != [] {
      var init := records[..|records| - 1];
      InsertablesAreTheInsertable(init);
      assert records == init + [records[|records| - 1]];
    }
  }

  /** The rows a batch adds: the k-th successful record gets id `start + k`. */
  function BatchRows(ok: seq<WatchlistFields>, start: int, now: string): map<int, WatchlistRecord> {
    Numbered(ok, start, StoreAt(now))
  }

  /** Storing a record under an id at the time `now`. */
  function StoreAt(now: string): (WatchlistFields, int) -> WatchlistRecord {
    (d, id) => Stored(d, id, now)
  }

  /** The batch's ids are consecutive from `start`, one per stored record. */
  lemma BatchRowsShape(ok: seq<WatchlistFields>, start: int, now: string)
    ensures forall id :: id in BatchRows(ok, start, now) <==> start <= id < start + |ok|
    ensures forall k | 0 <= k < |ok| :: BatchRows(ok, start, now)[start + k] == Stored(ok[k], start + k, now)
  {
    NumberedShape(ok, start, StoreAt(now));
  }

  lemma InsertablesStep(records: seq<WatchlistFields>, i: nat)
    requires i < |records|
    ensures Insertable(records[i]) ==> Insertables(records[..i + 1]) == Insertables(records[..i]) + [records[i]]
    ensures !Insertable(records[i]) ==> Insertables(records[..i + 1]) == Insertables(records[..i])
  {
    assert records[..i + 1][..i] == records[..i];
  }

  /** Storing the next successful record of a batch extends the batch's rows. */
  lemma BatchStep(before: map<int, WatchlistRecord>, base: map<int, WatchlistRecord>, done: seq<WatchlistFields>,
                  d: WatchlistFields, start: int, key: int, now: string)
    requires before == base + BatchRows(done, start, now) && key == start + |done|
    ensures before[key := Stored(d, key, now)] == base + BatchRows(done + [d], start, now)
  {
    NumberedStep(base, done, d, start, StoreAt(now));
  }

  /** The `watchlist` table: its rows by id and the next AUTOINCREMENT id,
      which never goes back, so an id is never reused. */
  class WatchlistTable {
    var rows: map<int, WatchlistRecord>
    var nextId: int

    ghost predicate Valid()
      reads this
    {
      1 <= nextId && forall id | id in rows :: 1 <= id < nextId && rows[id].id == id
    }

    constructor ()
      ensures Valid() && rows == map[] && nextId == 1
    {
      rows := map[];
      nextId := 1;
    }

    /** `getWatchlistById`: the row, or absence; never an error. */
    method GetById(id: int) returns (r: Option<WatchlistRecord>)
      ensures r.Some? <==> id in rows
      ensures r.Some? ==> r.value == rows[id]
    {
      if id in rows { r := Some(rows[id]); } else { r := None; }
    }

    /** `getWatchlistByTicker`: a row with exactly that ticker, or absence when
        there is none. The statement has no ORDER BY; the model returns the
        row with the lowest id. */
    method GetByTicker(ticker: string) returns (r: Option<WatchlistRecord>)
      requires Valid()
      ensures r.Some? <==> exists id | id in rows :: rows[id].ticker == ticker
      ensures r.Some? ==> r.value.id in rows && rows[r.value.id] == r.value && r.value.ticker == ticker
      ensures r.Some? ==> forall id | id in rows && rows[id].ticker == ticker :: r.value.id <= id
    {
      var id := 1;
      while id < nextId
        invariant 1 <= id <= nextId
        invariant forall k | k in rows && k < id :: rows[k].ticker != ticker
      {
        if id in rows && rows[id].ticker == ticker {
          return Some(rows[id]);
        }
        id := id + 1;
      }
      return None;
    }

    /** INSERT: the database refuses the row when a NOT NULL column gets null
        or undefined; otherwise it stores it under the next id. */
    method Insert(d: WatchlistFields, now: string) returns (id: Option<int>)
      requires Valid()
      modifies this
      ensures Valid()
      ensures id.Some? <==> Insertable(d)
      ensures id.Some? ==> (id.value == old(nextId) && id.value !in old(rows)
        && rows == old(rows)[id.value := Stored(d, id.value, now)] && nextId == old(nextId) + 1)
      ensures id.None? ==> rows == old(rows) && nextId == old(nextId)
    {
      var args := InsertArgs(d, now);
      InsertAcceptedIffRequiredPresent(d, now);
      if !Accepts(args) {
        return None;
      }
      var newId := nextId;
      rows := rows[newId := RowFromArgs(newId, args)];
      nextId := nextId + 1;
      return Some(newId);
    }

    /** `createWatchlist`: insert, then re-read the row by its new id. */
    method Create(d: WatchlistFields, now: string) returns (r: Result<WatchlistRecord>)
      requires Valid()
      modifies this
      ensures Valid()
      ensures r.Ok? <==> Insertable(d)
      ensures r.Ok? ==> (r.value == Stored(d, old(nextId), now) && r.value.id !in old(rows)
        && rows == old(rows)[r.value.id := r.value] && nextId == old(nextId) + 1)
      ensures r.Err? ==> rows == old(rows) && nextId == old(nextId)
    {
      var id := Insert(d, now);
      if id.None? {
        return Err("NOT NULL constraint failed");
      }
      var record := GetById(id.value);
      if record.None? {
        return Err("Failed to create watchlist record");
      }
      return Ok(record.value);
    }

    /** `getAllWatchlist`: the rows meeting every given filter, latest
        addedDate first and higher id first within a date. */
    method GetAll(f: WatchlistFilter) returns (result: seq<WatchlistRecord>)
      requires Valid()
      ensures forall r :: r in result <==> r in rows.Values && Matches(r, f)
      ensures Sorting.StrictlySortedBy(result, ListedBefore)
    {
      var stmt, params := BuildSelect(f);
      var found: seq<WatchlistRecord> := [];
      var id := 1;
      while id < nextId
        invariant 1 <= id <= nextId
        invariant forall k | 1 <= k < id && k in rows && Matches(rows[k], f) :: rows[k] in found
        invariant forall r | r in found :: r.id < id && r.id in rows && rows[r.id] == r && Matches(r, f)
        invariant forall i, j | 0 <= i < j < |found| :: found[i].id < found[j].id
      {
        if id in rows && Matches(rows[id], f) {
          found := found + [rows[id]];
        }
        id := id + 1;
      }
      forall r ensures r in found <==> r in rows.Values && Matches(r, f) {
        if r in rows.Values && Matches(r, f) {
          var k :| k in rows && rows[k] == r;
          assert rows[k] in found;
        }
      }
      ListedBeforeTotalPreorder();
      result := Sorting.Sort(found, ListedBefore);
      StrictOnDistinctIds(found, result);
    }

    /** `ORDER BY addedDate DESC, id DESC` over rows with distinct ids is a
        strict order: no two listed rows tie. */
    static lemma StrictOnDistinctIds(found: seq<WatchlistRecord>, result: seq<WatchlistRecord>)
      requires forall i, j | 0 <= i < j < |found| :: found[i].id < found[j].id
      requires multiset(result) == multiset(found)
      requires Sorting.SortedBy(result, ListedBefore)
      ensures forall r :: r in result <==> r in found
      ensures Sorting.StrictlySortedBy(result, ListedBefore)
    {
      forall r ensures r in result <==> r in found {
        assert r in result <==> r in multiset(result);
        assert r in found <==> r in multiset(found);
      }
      assert Sorting.NoDuplicates(found) by {
        forall a, b | 0 <= a < b < |found| ensures found[a] != found[b] {
          assert found[a].id < found[b].id;
        }
      }
      Sorting.NoDuplicatesPermutation(found, result);
      forall i, j | 0 <= i < j < |result| ensures !ListedBefore(result[j], result[i]) {
        assert result[i] != result[j];
        assert result[i] in multiset(found) && result[j] in multiset(found);
        var a :| 0 <= a < |found| && found[a] == result[i];
        var b :| 0 <= b < |found| && found[b] == result[j];
        assert a != b;
        assert result[i].id != result[j].id;
        var x, y := result[i], result[j];
        assert ListedBefore(x, y);
        StrLessIrreflexive(x.addedDate);
        if StrLess(y.addedDate, x.addedDate) {
          StrLessAsymmetric(y.addedDate, x.addedDate);
        }
      }
    }

    /** `updateWatchlist`: on a missing id nothing changes and the result is
        absence; a patch that sets a NOT NULL column to null makes the
        statement fail; otherwise only the supplied columns and `updatedAt`
        change. */
    method Update(id: int, p: WatchlistFields, now: string) returns (r: Result<Option<WatchlistRecord>>)
      requires Valid()
      modifies this
      ensures Valid() && nextId == old(nextId)
      ensures id !in old(rows) ==> r == Ok(None) && rows == old(rows)
      ensures id in old(rows) && !Updatable(p) ==> r.Err? && rows == old(rows)
      ensures id in old(rows) && Updatable(p) ==>
        r == Ok(Some(Patched(old(rows)[id], p, now))) && rows == old(rows)[id := Patched(old(rows)[id], p, now)]
    {
      var stmt, args, columns := BuildUpdate(id, p, now);
      if id in rows {
        RefusedIffNullWritten(p, columns, args);
        if exists k | 0 <= k < |columns| - 1 :: NotNull(columns[k]) && args[k] == ArgNull {
          return Err("NOT NULL constraint failed");
        }
        rows := rows[id := Patched(rows[id], p, now)];
      }
      var record := GetById(id);
      return Ok(record);
    }

    /** `deleteWatchlist`: true exactly when a row with that id existed;
        afterwards there is none. */
    method Delete(id: int) returns (existed: bool)
      requires Valid()
      modifies this
      ensures Valid()
      ensures existed <==> id in old(rows)
      ensures rows == old(rows) - {id} && nextId == old(nextId)
      ensures id !in rows
    {
      existed := id in rows;
      rows := rows - {id};
    }

    /** `createWatchlistBatch`: every record is tried on its own with one
        shared `now`; a refused record is skipped (the source logs it) and the
        count of stored records is returned. */
    method CreateBatch(records: seq<WatchlistFields>, now: string) returns (created: nat)
      requires Valid()
      modifies this
      ensures Valid()
      ensures created == |Insertables(records)|
      ensures nextId == old(nextId) + created
      ensures rows == old(rows) + BatchRows(Insertables(records), old(nextId), now)
    {
      created := 0;
      var i := 0;
      while i < |records|
        invariant 0 <= i <= |records|
        invariant Valid()
        invariant created == |Insertables(records[..i])|
        invariant nextId == old(nextId) + created
        invariant rows == old(rows) + BatchRows(Insertables(records[..i]), old(nextId), now)
      {
        InsertablesStep(records, i);
        ghost var before := Insertables(records[..i]);
        ghost var before_rows, before_next := rows, nextId;
        var id := Insert(records[i], now);
        if id.Some? {
          assert id.value == before_next;
          assert rows == before_rows[before_next := Stored(records[i], before_next, now)];
          BatchStep(before_rows, old(rows), before, records[i], old(nextId), before_next, now);
          created := created + 1;
        }
        i := i + 1;
      }
      assert records[..i] == records;
    }
  }

  /** The listing contract determines the listing: two results that both hold
      exactly the matching rows in strict ListedBefore order are equal. */
  lemma ListingIsDetermined(rows: map<int, WatchlistRecord>, f: WatchlistFilter, a: seq<WatchlistRecord>, b: seq<WatchlistRecord>)
    requires forall r :: r in a <==> r in rows.Values && Matches(r, f)
    requires forall r :: r in b <==> r in rows.Values && Matches(r, f)
    requires Sorting.StrictlySortedBy(a, ListedBefore) && Sorting.StrictlySortedBy(b, ListedBefore)
    ensures a == b
  {
    Sorting.StrictNoDuplicates(a, ListedBefore);
    Sorting.StrictNoDuplicates(b, ListedBefore);
    Sorting.SameElementsSameMultiset(a, b);
    Sorting.StrictlySortedUnique(a, b, ListedBefore);
  }
}
