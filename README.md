# market-diary: a verified model of the store, the routes and the aggregations

market-diary is a single-user investment diary built with Next.js over a libsql
database. This project models its deterministic core in Dafny and proves
properties of that model:

- **The record store** (`lib/db.ts`). There is one class per table, `DiaryStore.DiaryTable`
  and `WatchlistStore.WatchlistTable`. Each holds its rows as a map from id to record,
  together with the AUTOINCREMENT counter.
  - Create, get by id, get by ticker, filtered listing, partial update, delete and
    batch insert are methods on that state.
  - A method's contract gives the new rows and counter in terms of the old ones.
  - The SQL text the store grows with `sql +=` and `push` is modelled as a
    sequence of text and `?` tokens (`Sql`). Every builder is proved to bind
    exactly as many arguments as the rendered text has `?` marks.
  - An insert fails exactly when a NOT NULL column of the schema gets `null` or
    `undefined`. An update fails only when it clears a NOT NULL column of a row
    that exists.
- **The HTTP handlers** (`app/api/diary/route.ts`, `app/api/watchlist/route.ts`)
  are methods over a table (`DiaryApi`, `WatchlistApi`). Their contracts give the
  status code and the new table state for every branch: 400, 404, 201/200 and 500.
- **The session gate** (`middleware.ts`, the login and logout routes) is
  modelled as functions over the browser's session cookie (`Session`).
  - The token is Base64 (section 4 of RFC 4648, `Base64`) of the UTF-8 bytes
    (`Utf8`) of `username:password:market-diary`.
  - Both encodings are proved invertible, so for a fixed username the token
    determines the password.
  - The login route defaults the password to `market2024`, the middleware to
    `password`. `Session.LoginThenGate` proves that the cookie a login issues
    opens the gate exactly when `AUTH_PASSWORD` is set to a non-empty value.
    The model follows the code here, not the promise that a successful login is
    always followed by an admitted request.
- **Tags** (`lib/tags.ts`): `stringToTags` and `tagsToString` with their round
  trip and idempotence, and the `diaryTypes` master list.
- **Collections** (`lib/utils.ts` `unique` and `groupBy`; the aggregation block
  of `app/stats/page.tsx`; the by-date map and day markers of
  `app/calendar/page.tsx`).
  - The reduces that mutate an accumulator in place are methods with loop
    invariants (`Utils.GroupBy`, `Stats.DailyData`, `Stats.TickerData`,
    `Calendar.DiaryMap`).
  - Each method is proved against a specification function: `Select`, `Tally`
    or `TickerCount`.

JavaScript values are modelled explicitly:

- `Common.Js` is `undefined`, `null` or a value.
- `x || null` (`Common.OrNull`) maps `""` to null, and `x ?? null`
  (`Common.Coalesce`) keeps every value.
- `parseInt` (`Common.ParseInt`) reads an optional sign and a decimal digit
  prefix after leading white space. None stands for NaN.
- String comparison in SQL and in `localeCompare` is code-point order
  (`Common.StrLess`).

The database connection is a `configured` flag on every handler. It is false
when no database URL is set, and then every handler answers 500. The clock is
the parameter `now`.

## Model

| member | source | states |
|---|---|---|
| Common.OrNull | lib/db.ts:214-223 | `x \|\| null` on a string: null exactly for undefined, null and `""`, otherwise the string itself |
| Common.Coalesce | lib/db.ts:343-349 | `x ?? null`: a value survives exactly when one was given, 0 included |
| Common.Param | app/api/diary/route.ts:17-20 | `searchParams.get(k) \|\| undefined`: absent exactly when the key is missing or its value is empty, otherwise that value |
| Common.OrDefault | middleware.ts:39-40 | `env \|\| fallback`: the variable when it is set and non-empty, otherwise the fallback |
| Common.StrLessTotal | lib/db.ts:307 | code-point string order compares any two strings (with StrLessTransitive, StrLessIrreflexive and StrLessAsymmetric it is a strict total order) |
| Common.StrLessTransitive | lib/db.ts:165 | code-point string order is transitive |
| Common.StrLessIrreflexive | lib/db.ts:165 | no string is below itself |
| Common.StrLessAsymmetric | lib/db.ts:307 | two strings are never each below the other |
| Common.ParseInt | app/api/diary/route.ts:68 | `parseInt` is NaN for blank text and for text whose first non-blank character is neither a digit nor a sign; a leading digit gives a number ≥ 0; a negative result needs a leading `-` |
| Common.ParseIntNeedsDigit | app/api/diary/route.ts:68 | a number is read only from text that holds a digit |
| Common.ParseIntIgnoresSuffix | app/api/diary/route.ts:68 | `parseInt` of a decimal numeral followed by a non-digit gives that number back |
| Common.ParseIntDigits | app/api/watchlist/route.ts:70 | `parseInt` of a digit string followed by a non-digit is the value of the digits |
| Common.DecimalValue | app/api/diary/route.ts:93 | the numeral printed for n reads back as n |
| Common.TrimStart | lib/tags.ts:112 | keeps a suffix of the text that does not start with white space |
| Common.TrimStartDrops | lib/tags.ts:112 | what the start trim drops is all white space |
| Common.TrimEnd | lib/tags.ts:112 | keeps a prefix of the text that does not end with white space |
| Common.TrimEndDrops | lib/tags.ts:112 | what the end trim drops is all white space |
| Common.Trim | lib/tags.ts:112 | `trim()` yields a string with no leading or trailing JavaScript white space |
| Common.TrimShape | lib/tags.ts:112 | `trim()` returns a contiguous slice of the input with only white space before and after it |
| Common.TrimTrimmed | lib/tags.ts:112 | trimming an already trimmed string leaves it unchanged |
| Common.TrimKeeps | lib/tags.ts:112 | trimming only removes characters |
| Common.NumberedShape | lib/db.ts:421-447 | the rows numbered from `start` hold ids `start` to `start+n-1`, the k-th holding the k-th item |
| Http.TextField | app/api/diary/route.ts:36-46 | a string field of a JSON body reads as undefined when missing or not a string, null for JSON null, else that string |
| Http.RealField | app/api/diary/route.ts:41-42 | a numeric field (quantity, price, conviction) reads as null for JSON null, and as the number exactly when the body holds one, fractions included |
| Sql.RenderedPlaceholders | lib/db.ts:149-167 | when no literal text holds `?`, the rendered statement has one `?` per bound-argument slot |
| Sql.HolesJoin | lib/db.ts:262 | `fields.join(", ")` has as many slots as all its parts together |
| Sql.PlainTextJoin | lib/db.ts:262 | joining `?`-free text keeps the literal text `?`-free |
| Sql.ValuesListCount | lib/db.ts:209-210 | `VALUES (?, …, ?)` with n marks has n slots |
| Sql.InsertIntoPlaceholders | lib/db.ts:208-227 | an `INSERT INTO t (cols) VALUES (…)` statement has one `?` per column |
| Sql.Like | lib/db.ts:162 | without `%` a LIKE match has the pattern's length; without `%` and `_` it is equality after ASCII case folding |
| Sql.LikePrefix | lib/db.ts:162 | for a pattern without wildcards, `s%` LIKE-matches exactly the texts with prefix s, both folded to ASCII lower case |
| Sql.LikeSubstring | lib/db.ts:162 | `%s%` LIKE-matches exactly the texts holding s as a case-folded substring |
| Sql.LikeTrailingPercent | lib/db.ts:162 | `%` matches every text |
| Sorting.Sort | lib/db.ts:165 | ordering by a total preorder yields a sorted permutation of the input |
| Sorting.StrictlySortedUnique | lib/db.ts:307 | with a strict tie-break (id), two sorted listings of the same rows are equal, so `ORDER BY` fixes the listing |
| Sorting.SliceSorted | app/stats/page.tsx:63-65 | a slice of a sorted list is sorted and a sub-multiset |
| Sorting.SuffixFollows | app/stats/page.tsx:65 | every element left out of a sorted suffix comes no later than every element kept |
| Sorting.PrefixLeads | app/stats/page.tsx:86 | every element left out of a sorted prefix comes no earlier than every element kept |
| Utf8.Encode | middleware.ts:43 | a string's UTF-8 bytes are at least as many as its characters |
| Utf8.EncodeChar | middleware.ts:43 | one code point becomes 1 to 4 bytes, the length announced by the lead byte |
| Utf8.DecodeEncode | middleware.ts:43 | decoding the UTF-8 bytes of a string gives the string back |
| Utf8.EncodeInjective | middleware.ts:43 | distinct strings have distinct UTF-8 bytes |
| Base64.Encode | middleware.ts:43 | Base64 output is 4 characters per started group of 3 bytes |
| Base64.DecodeEncode | middleware.ts:43 | strict decoding inverts encoding |
| Base64.EncodeInjective | app/api/auth/login/route.ts:14-16 | distinct byte strings have distinct encodings |
| Base64.EncodeAlphabet | middleware.ts:43 | every output character is in the alphabet, or is `=` |
| Base64.TestVectors | middleware.ts:43 | the RFC 4648 section 10 vectors for `f`, `fo` and `foo` |
| Base64.ValueOfCharOf | middleware.ts:43 | the alphabet maps each six-bit value to a character that decodes back to it |
| Session.SessionToken | middleware.ts:37-45 | the token has a multiple of four characters and decodes (Base64, then UTF-8) back to `username:password:market-diary` |
| Session.TokenRoundTrip | middleware.ts:43 | Base64 of the UTF-8 bytes of a text reads back as that text |
| Session.ExpectedToken | middleware.ts:37-45 | the middleware's token carries `AUTH_USERNAME` (default `admin`) and `AUTH_PASSWORD` (default `password`) |
| Session.IssuedToken | app/api/auth/login/route.ts:8-16 | the login route's token carries `AUTH_USERNAME` (default `admin`) and `AUTH_PASSWORD` (default `market2024`) |
| Session.Excluded | middleware.ts:55 | the lookahead `(?!api\|_next\|favicon.ico)` fails exactly on text starting with `api`, `_next`, or `favicon`, any character, `ico` |
| Session.Matched | middleware.ts:55 | the matcher selects exactly the paths that start with `/` and not with `/api`, `/_next` or `/favicon?ico` (any character for `?`) |
| Session.TokenDeterminesPassword | middleware.ts:37-45 | for one username, equal session tokens mean equal passwords |
| Session.Middleware | middleware.ts:4-35 | `/login`, `/_next` and `/favicon` pass. A missing cookie redirects with `from` set to the path. A cookie other than the expected token redirects without `from` and deletes the cookie. The expected token passes, and only it |
| Session.Gate | middleware.ts:47-56 | paths under `/api` or `/_next`, `/favicon?ico` (any character for `?`) and paths not starting with `/` pass unchecked; every other path gets the middleware's answer |
| Session.ApiNeverGated | middleware.ts:55 | every `/api` path passes whatever the cookie |
| Session.PagesAreGated | middleware.ts:17-22 | a page the matcher selects, outside the public prefixes, redirects a cookieless request to `/login` with its own path |
| Session.BadCookieThenNoCookie | middleware.ts:26-31 | after a bad cookie is deleted, the next request takes the no-cookie branch |
| Session.Apply | app/api/auth/logout/route.ts:10 | setting the session cookie stores its value, deleting it leaves none, keeping it changes nothing |
| Session.SessionCookie | app/api/auth/login/route.ts:25-31 | the cookie is `market-diary-session` holding the issued token: httpOnly, sameSite lax, path `/`, maxAge 2592000, and `secure` exactly when NODE_ENV is `production` |
| Session.Login | app/api/auth/login/route.ts:3-47 | 200 with the session cookie exactly when both fields equal the configured strings (defaults `admin` and `market2024`); otherwise 401 with one message and no cookie change; an unreadable body gives 500 |
| Session.Logout | app/api/auth/logout/route.ts:3-13 | always 200 with the message `Logout successful`, and always deletes the cookie |
| Session.LogoutIdempotent | app/api/auth/logout/route.ts:3-13 | logging out twice leaves the same cookie state as once: none |
| Session.LogoutThenGate | app/api/auth/logout/route.ts:10 | after logout a gated page redirects to `/login` with `from` |
| Session.FailedLoginKeepsCookie | app/api/auth/login/route.ts:34-38 | a failed login leaves the cookie as it was |
| Session.LoginThenGate | app/api/auth/login/route.ts:8-16 | the cookie a login issues opens the gate exactly when AUTH_PASSWORD is set (otherwise `market2024` and `password` differ) |
| Tags.Split | lib/tags.ts:112 | `split(",")` gives one more segment than there are commas, none holding a comma |
| Tags.JoinSplit | lib/tags.ts:112 | joining the segments with the separator gives the string back |
| Tags.NonEmpty | lib/tags.ts:112 | `filter(t => t.length > 0)` keeps exactly the non-empty segments |
| Tags.NonEmptyAppend | lib/tags.ts:112 | the filter works piece by piece, so it keeps the order of the segments |
| Tags.NonEmptySingle | lib/tags.ts:112 | one segment is kept exactly when it is not empty |
| Tags.StringToTags | lib/tags.ts:110-113 | null and `""` give no tags. Every tag is non-empty, trimmed and comma-free, and there are at most commas+1 of them |
| Tags.StringToTagsSegments | lib/tags.ts:110-113 | a non-empty text gives its comma-separated segments, trimmed, without the empty ones |
| Tags.TagsToString | lib/tags.ts:105-107 | no tags give `""`, one tag gives itself, and comma-free tags joined hold one comma fewer than there are tags |
| Tags.JoinCommas | lib/tags.ts:105-107 | joining n ≥ 1 comma-free strings with `", "` puts n − 1 commas in the result |
| Tags.CountAppend | lib/tags.ts:112 | counting a character is additive over concatenation |
| Tags.SplitJoined | lib/tags.ts:105-107 | the segments of joined tags are the first tag, then each later tag behind its space |
| Tags.TrimSegments | lib/tags.ts:105-113 | trimming the segments of joined clean tags gives the tags |
| Tags.TagsRoundTrip | lib/tags.ts:105-113 | `stringToTags(tagsToString(tags)) == tags` for non-empty, trimmed, comma-free tags |
| Tags.NormaliseIdempotent | lib/tags.ts:105-113 | `stringToTags(tagsToString(stringToTags(s))) == stringToTags(s)` |
| Tags.DiaryTypesAreTheUnion | lib/tags.ts:96-102 | the `diaryTypes` values are exactly `buy`, `sell` and `note`, each once |
| Utils.Unique | lib/utils.ts:111-113 | `[...new Set(arr)]` has no duplicates, the same elements as the input and no more entries |
| Utils.UniqueOrder | lib/utils.ts:111-113 | `unique` keeps first-occurrence order |
| Utils.UniqueSnoc | lib/utils.ts:111-113 | one more item makes a `Set` grow at its end exactly when the item is new |
| Utils.UniqueOfDistinct | lib/utils.ts:111-113 | a list without duplicates is its own `unique` |
| Utils.UniqueIdempotent | lib/utils.ts:111-113 | `unique` is idempotent |
| Utils.GroupBy | lib/utils.ts:116-125 | the groups are keyed by exactly the keys that occur. Each group is the input's items with that key, in input order, and none is empty |
| Utils.Push | lib/utils.ts:119-122 | one reduce step keeps the grouping invariant for the input read so far |
| Utils.SelectMembers | lib/utils.ts:118-122 | a group holds only input items carrying its key |
| Utils.SelectContains | lib/utils.ts:122 | every item is in the group of its own key |
| Utils.SelectAppend | lib/utils.ts:122 | pushing an item extends only its own group |
| Utils.SelectNonEmpty | lib/utils.ts:119-121 | a group is non-empty exactly when an item with its key occurs |
| Utils.GroupsCoverInput | lib/utils.ts:116-125 | the group sizes, summed over the distinct keys, equal the input length |
| Utils.GroupSizesSum | lib/utils.ts:116-125 | over any duplicate-free key list covering every item's key, the group sizes sum to the input length |
| Stats.OfKind | app/stats/page.tsx:44-46 | the entries of one type are no more than all the entries |
| Stats.OfKindMembers | app/stats/page.tsx:44-45 | `filter(d => d.type === k)` keeps exactly the entries of type k |
| Stats.OthersMembers | app/stats/page.tsx:59 | the note counter receives exactly the entries that are neither buy nor sell |
| Stats.KindsSplit | app/stats/page.tsx:52-61 | buys, sells and the rest split the entries as a multiset, and their counts sum to the total |
| Stats.OthersAreNotes | app/stats/page.tsx:46 | when every type is buy, sell or note, the rest are the notes |
| Stats.KindsPartition | app/stats/page.tsx:44-46 | when every type is buy, sell or note, `buys`, `sells` and `notes` partition the entries |
| Stats.DayTotal | app/stats/page.tsx:52-61 | a day's buys + sells + notes is its number of entries |
| Stats.TallyAbsent | app/stats/page.tsx:54-56 | a date with no entry has the all-zero bucket |
| Stats.Bump | app/stats/page.tsx:57-59 | counting one entry raises the bucket's total by one and keeps its date |
| Stats.TallyStep | app/stats/page.tsx:52-60 | one more entry bumps only its own date's bucket |
| Stats.CountEntry | app/stats/page.tsx:53-59 | one reduce step adds the bucket if missing, then bumps it by the entry's type |
| Stats.Round | app/stats/page.tsx:52-61 | one reduce step keeps the buckets equal to the tallies of the entries read so far |
| Stats.DailyData | app/stats/page.tsx:52-61 | one bucket per distinct date, each the tally of that date's entries; the key order is the entries' distinct dates in first-seen order, each once |
| Stats.DateOrderTotalPreorder | app/stats/page.tsx:64 | comparing dates orders the buckets totally |
| Stats.LastN | app/stats/page.tsx:65 | `slice(-n)` is the last n elements, or all of them when there are fewer |
| Stats.ChartData | app/stats/page.tsx:63-65 | at most 14 buckets (exactly 14 when there are that many), ascending by date, drawn from the buckets |
| Stats.ChartIsLatest | app/stats/page.tsx:63-65 | no bucket left out of the chart is later than one shown |
| Stats.ChartBarsAreTallies | app/stats/page.tsx:52-65 | every bar is the tally of its date's entries |
| Stats.Positive | app/stats/page.tsx:72 | `filter(d => d.value > 0)` keeps exactly the positive slices and the same sum |
| Stats.TypeData | app/stats/page.tsx:68-72 | the slices with a zero count are dropped; at most three remain, summing to the buy, sell and note counts |
| Stats.PositiveAppend | app/stats/page.tsx:72 | the filter works piece by piece, so it keeps the order of the slices |
| Stats.TypeDataOrder | app/stats/page.tsx:68-72 | the remaining slices come in the order buy, sell, note |
| Stats.TypeDataCoversEntries | app/stats/page.tsx:68-72 | when every type is buy, sell or note, the slices sum to the number of entries |
| Stats.SlicesFollowDiaryTypes | app/stats/page.tsx:68-71 | the three slices carry the `diaryTypes` labels and colours in its order |
| Stats.TickerStep | app/stats/page.tsx:78-80 | one more entry raises only its own ticker's count |
| Stats.TickerData | app/stats/page.tsx:75-82 | a key per non-empty ticker that occurs, holding the number of its entries; null and empty tickers are ignored; the key order is the tickers in first-seen order, each once |
| Stats.TickerKeys | app/stats/page.tsx:75-78 | the tickers the loop counts, in entry order: exactly the non-empty tickers that occur |
| Stats.TopTickers | app/stats/page.tsx:84-87 | at most 5 (exactly 5 when there are that many), with non-increasing counts, drawn from the tickers |
| Stats.TopTickersAreTheTop | app/stats/page.tsx:84-87 | no omitted ticker has a count above one shown |
| Stats.TopTickersCountEntries | app/stats/page.tsx:75-87 | every item shown is a real ticker with its entry count |
| Calendar.EmptyDays | app/calendar/page.tsx:57-58 | the blank cells are 6 for a Sunday start, else weekday − 1; always 0..6 and equal to (weekday + 6) mod 7 |
| Calendar.HeaderNamesWeekday | app/calendar/page.tsx:73 | header column j is the weekday (j + 1) mod 7, Monday first |
| Calendar.DayUnderItsHeader | app/calendar/page.tsx:57-58 | each day of the month falls under the header of its own weekday |
| Calendar.DiaryMap | app/calendar/page.tsx:61-67 | a key per date that occurs, each holding that date's entries in fetch order, never empty |
| Calendar.DiaryMapPlacesEachEntry | app/calendar/page.tsx:61-67 | every entry is under its own date |
| Calendar.DiaryMapKeepsOrder | app/calendar/page.tsx:65 | the entries of a date read so far stay a prefix of its list |
| Calendar.DayEntries | app/calendar/page.tsx:120 | `diaryMap[d] \|\| []` is empty when the date is absent |
| Calendar.SelectedDiaries | app/calendar/page.tsx:69-71 | no selection gives no entries |
| Calendar.DayEntriesAreThatDate | app/calendar/page.tsx:69-71 | a day's entries are the entries of that date; empty exactly when none has it |
| Calendar.AnyOfKind | app/calendar/page.tsx:121-123 | `some(d => d.type === k)` holds exactly when an entry of type k occurs |
| Calendar.DayMarker | app/calendar/page.tsx:135 | buy if any buy; else sell if any sell; else note if any note; else no marker |
| Calendar.EmptyDayUnmarked | app/calendar/page.tsx:135 | a day without entries carries no marker |
| Calendar.TypedDayMarked | app/calendar/page.tsx:121-135 | a non-empty day whose types are all buy, sell or note carries a marker |
| DiaryStore.ColumnName | lib/db.ts:49-64 | no column name holds `?` |
| DiaryStore.InsertArgs | lib/db.ts:340-352 | one argument per insert column |
| DiaryStore.Stored | lib/db.ts:335-360 | a created row has the given id and createdAt = updatedAt = now. The required fields are as given, `\|\|` fields are null for `""`, and `??` fields keep 0 |
| DiaryStore.RowRoundTrip | lib/db.ts:124-139 | `rowToDiary` reads the record's own columns back as the record |
| DiaryStore.InsertAcceptedIffRequiredPresent | lib/db.ts:49-64 | the database accepts the insert exactly when date, type and content are strings |
| DiaryStore.InsertStoresArgs | lib/db.ts:337-353 | each column of the stored row holds the argument bound to it, and the id column the new id |
| DiaryStore.InsertPlaceholders | lib/db.ts:337-339 | the INSERT has as many `?` as arguments |
| DiaryStore.ListedBeforeTotalPreorder | lib/db.ts:307 | `ORDER BY date DESC, id DESC` is a total preorder |
| DiaryStore.SelectFragmentsPlain | lib/db.ts:287-307 | the SELECT's literal fragments hold no `?` |
| DiaryStore.BuildSelect | lib/db.ts:287-309 | the SELECT binds exactly its parameters, one `?` each: the given start date, end date, type and ticker, in that order |
| Sql.AddCondition | lib/db.ts:290-305 | `sql += " AND col = ?"` adds one slot and keeps the text `?`-free (the watchlist filter, lib/db.ts:152-163, builds the same way) |
| Sql.AddText | lib/db.ts:307 | appending `?`-free text adds no slot (likewise lib/db.ts:165) |
| DiaryStore.DataColumnsDistinct | lib/db.ts:370-382 | the nine data columns are distinct |
| DiaryStore.AddAssignment | lib/db.ts:370-382 | one `if (data.k !== undefined)` step adds that column and its value exactly when the key is supplied |
| DiaryStore.SuppliedAssignments | lib/db.ts:368-382 | the SET list holds each supplied data key once, with its value |
| DiaryStore.BuildUpdate | lib/db.ts:367-387 | the UPDATE sets the supplied keys, then `updatedAt = now`, binds the id last, and has one `?` per argument (clauses + 1) |
| DiaryStore.UpdatePlaceholders | lib/db.ts:384-387 | an UPDATE over n columns has n+1 slots and as many `?` |
| DiaryStore.ClausesCount | lib/db.ts:372-382 | each `col = ?` clause has one slot |
| DiaryStore.Patched | lib/db.ts:363-390 | the updated row keeps its id and createdAt, and takes updatedAt = now |
| DiaryStore.PatchedColumns | lib/db.ts:370-382 | each data column takes the supplied value, null included, or keeps the old one |
| DiaryStore.PatchedColumn | lib/db.ts:370-382 | the same, column by column |
| DiaryStore.UpdateRefusedIffNotNullCleared | lib/db.ts:49-64 | an update is refused exactly when it writes null to a NOT NULL column |
| DiaryStore.RefusedIffNullWritten | lib/db.ts:367-387 | the built UPDATE binds null to a NOT NULL column exactly when the update is refused |
| DiaryStore.InsertablesAreTheInsertable | lib/db.ts:467-490 | the records a batch stores are exactly its insertable ones |
| DiaryStore.BatchRowsShape | lib/db.ts:467-490 | the batch's rows take consecutive ids from the counter, the k-th holding the k-th stored record |
| DiaryStore.DiaryTable.constructor | lib/db.ts:49-64 | a fresh table is empty with counter 1 |
| DiaryStore.DiaryTable.GetById | lib/db.ts:313-321 | the row with that id, or absence |
| DiaryStore.DiaryTable.Insert | lib/db.ts:337-353 | stores the row under a fresh id and advances the counter exactly when the insert is accepted, otherwise changes nothing |
| DiaryStore.DiaryTable.Create | lib/db.ts:323-361 | returns the stored row re-read by its fresh id, or an error with nothing changed |
| DiaryStore.DiaryTable.GetAll | lib/db.ts:280-311 | exactly the rows matching every given filter, strictly in date-then-id descending order |
| DiaryStore.DiaryTable.Update | lib/db.ts:363-390 | a missing id gives absence and no change; a refused update errs with no change; otherwise the row becomes the patched row and is returned |
| DiaryStore.DiaryTable.Delete | lib/db.ts:392-399 | true exactly when the row existed; afterwards it is gone and nothing else changed |
| DiaryStore.DiaryTable.CreateBatch | lib/db.ts:452-493 | stores every insertable record, with consecutive ids and one `now`, skips the rest, and returns how many it stored |
| DiaryStore.ListingIsDetermined | lib/db.ts:307 | any two listings that satisfy `GetAll`'s contract are equal |
| DiaryApi.QueryFilter | app/api/diary/route.ts:17-20 | each filter is absent exactly when its parameter is missing or empty, else that value |
| DiaryApi.QueryReadsOnlyFilterKeys | app/api/diary/route.ts:17-22 | any other query parameter, `limit` included, leaves the filter unchanged |
| DiaryApi.BodyReadsOnlyFieldKeys | app/api/diary/route.ts:36-46 | POST forwards only the nine named body keys |
| DiaryApi.BodyCannotSetIdOrTimestamps | app/api/diary/route.ts:68 | body keys `id`, `createdAt` and `updatedAt` change nothing; the row keeps id and createdAt and takes the handler's `now` |
| DiaryApi.CreateReply | app/api/diary/route.ts:47-52 | 201 with the stored record exactly on success, else 500 |
| DiaryApi.UpdateReply | app/api/diary/route.ts:68-78 | 404 exactly on absence, 200 with the record on success, 500 on an error |
| DiaryApi.DeleteReply | app/api/diary/route.ts:93-101 | 200 `{success: true}` exactly when a row was removed, else 404 |
| DiaryApi.Get | app/api/diary/route.ts:12-28 | 200 with exactly the matching rows in listing order, or 500 without a database |
| DiaryApi.Post | app/api/diary/route.ts:31-53 | 201 with the stored row and the table extended by it; 500 and no change for a missing required field, a bad body or no database |
| DiaryApi.Put | app/api/diary/route.ts:56-79 | 400 with no change without an id; 500 with no change for a non-numeric (NaN) id or a refused update; 404 with no change for a missing row; otherwise 200 with the patched row |
| DiaryApi.Delete | app/api/diary/route.ts:82-104 | 400 with no change without an id; 500 with no change for a non-numeric (NaN) id; 404 with no change for a missing row; otherwise 200 and the row is gone |
| WatchlistStore.ColumnName | lib/db.ts:28-46 | no column name holds `?` |
| WatchlistStore.InsertArgs | lib/db.ts:211-226 | one argument per insert column |
| WatchlistStore.Stored | lib/db.ts:206-234 | a created row has the given id and createdAt = updatedAt = now. The required fields are as given, `\|\|` fields are null for `""`, and conviction keeps any number, 0 and fractions included |
| WatchlistStore.RowRoundTrip | lib/db.ts:103-121 | `rowToWatchlist` reads the record's own columns back as the record |
| WatchlistStore.InsertAcceptedIffRequiredPresent | lib/db.ts:28-46 | the insert is accepted exactly when ticker, name, category, tags, thesis and addedDate are strings |
| WatchlistStore.InsertStoresArgs | lib/db.ts:208-227 | each column of the stored row holds the argument bound to it, and the id column the new id |
| WatchlistStore.InsertPlaceholders | lib/db.ts:208-210 | the INSERT has as many `?` as arguments |
| WatchlistStore.SearchIsSubstring | lib/db.ts:160-163 | a search without wildcards matches ticker or name as an ASCII case-insensitive substring |
| WatchlistStore.ListedBeforeTotalPreorder | lib/db.ts:165 | `ORDER BY addedDate DESC, id DESC` is a total preorder |
| WatchlistStore.SelectFragmentsPlain | lib/db.ts:149-165 | the SELECT's literal fragments hold no `?` |
| WatchlistStore.BuildSelect | lib/db.ts:149-167 | the SELECT binds exactly its parameters, one `?` each: category, status, then the search pattern twice |
| WatchlistStore.TickerLookupPlaceholders | lib/db.ts:184-185 | the ticker lookup binds one argument to one `?` |
| WatchlistStore.DataColumnsDistinct | lib/db.ts:244-259 | the twelve data columns are distinct |
| WatchlistStore.AddAssignment | lib/db.ts:244-259 | one `if (data.k !== undefined)` step adds that column and its value exactly when the key is supplied |
| WatchlistStore.SuppliedAssignments | lib/db.ts:242-259 | the SET list holds each supplied data key once, with its value |
| WatchlistStore.BuildUpdate | lib/db.ts:241-264 | the UPDATE sets the supplied keys, then `updatedAt = now`, binds the id last, and has one `?` per argument (clauses + 1) |
| WatchlistStore.UpdatePlaceholders | lib/db.ts:261-264 | an UPDATE over n columns has n+1 slots and as many `?` |
| WatchlistStore.ClausesCount | lib/db.ts:246-259 | each `col = ?` clause has one slot |
| WatchlistStore.Patched | lib/db.ts:237-267 | the updated row keeps its id and createdAt, and takes updatedAt = now |
| WatchlistStore.PatchedColumns | lib/db.ts:244-259 | each data column takes the supplied value, null included, or keeps the old one |
| WatchlistStore.PatchedColumn | lib/db.ts:244-259 | the same, column by column |
| WatchlistStore.UpdateRefusedIffNotNullCleared | lib/db.ts:28-46 | an update is refused exactly when it writes null to a NOT NULL column |
| WatchlistStore.RefusedIffNullWritten | lib/db.ts:241-264 | the built UPDATE binds null to a NOT NULL column exactly when the update is refused |
| WatchlistStore.InsertablesAreTheInsertable | lib/db.ts:421-447 | the records a batch stores are exactly its insertable ones |
| WatchlistStore.BatchRowsShape | lib/db.ts:421-447 | the batch's rows take consecutive ids from the counter, the k-th holding the k-th stored record |
| WatchlistStore.WatchlistTable.constructor | lib/db.ts:28-46 | a fresh table is empty with counter 1 |
| WatchlistStore.WatchlistTable.GetById | lib/db.ts:171-179 | the row with that id, or absence |
| WatchlistStore.WatchlistTable.GetByTicker | lib/db.ts:181-189 | a row with that ticker (the lowest id) exactly when one exists |
| WatchlistStore.WatchlistTable.Insert | lib/db.ts:208-227 | stores the row under a fresh id and advances the counter exactly when the insert is accepted, otherwise changes nothing |
| WatchlistStore.WatchlistTable.Create | lib/db.ts:191-235 | returns the stored row re-read by its fresh id, or an error with nothing changed |
| WatchlistStore.WatchlistTable.GetAll | lib/db.ts:143-169 | exactly the rows matching every given filter, strictly in addedDate-then-id descending order |
| WatchlistStore.WatchlistTable.Update | lib/db.ts:237-267 | a missing id gives absence and no change; a refused update errs with no change; otherwise the row becomes the patched row and is returned |
| WatchlistStore.WatchlistTable.Delete | lib/db.ts:269-276 | true exactly when the row existed; afterwards it is gone and nothing else changed |
| WatchlistStore.WatchlistTable.CreateBatch | lib/db.ts:403-450 | stores every insertable record, with consecutive ids and one `now`, skips the rest, and returns how many it stored |
| WatchlistStore.ListingIsDetermined | lib/db.ts:165 | any two listings that satisfy `GetAll`'s contract are equal |
| WatchlistApi.QueryFilter | app/api/watchlist/route.ts:17-19 | each filter is absent exactly when its parameter is missing or empty, else that value |
| WatchlistApi.QueryReadsOnlyFilterKeys | app/api/watchlist/route.ts:17-21 | any other query parameter leaves the filter unchanged |
| WatchlistApi.BodyReadsOnlyFieldKeys | app/api/watchlist/route.ts:35-48 | POST forwards only the twelve named body keys |
| WatchlistApi.BodyCannotSetIdOrTimestamps | app/api/watchlist/route.ts:70 | body keys `id`, `createdAt` and `updatedAt` change nothing; the row keeps id and createdAt and takes the handler's `now` |
| WatchlistApi.CreateReply | app/api/watchlist/route.ts:49-54 | 201 with the stored record exactly on success, else 500 |
| WatchlistApi.UpdateReply | app/api/watchlist/route.ts:70-80 | 404 exactly on absence, 200 with the record on success, 500 on an error |
| WatchlistApi.DeleteReply | app/api/watchlist/route.ts:95-101 | 200 `{success: true}` exactly when a row was removed, else 404 |
| WatchlistApi.Get | app/api/watchlist/route.ts:12-27 | 200 with exactly the matching rows in listing order, or 500 without a database |
| WatchlistApi.Post | app/api/watchlist/route.ts:30-55 | 201 with the stored row and the table extended by it, a numeric conviction stored as given; 500 and no change for a missing required field, a bad body or no database |
| WatchlistApi.Put | app/api/watchlist/route.ts:58-81 | 400 with no change without an id; 500 with no change for a non-numeric (NaN) id or a refused update; 404 with no change for a missing row; otherwise 200 with the patched row, a numeric conviction stored as given |
| WatchlistApi.Delete | app/api/watchlist/route.ts:84-106 | 400 with no change without an id; 500 with no change for a non-numeric (NaN) id; 404 with no change for a missing row; otherwise 200 and the row is gone |

## Left out

- `getDb`, the libsql client and `initializeDatabase` (lib/db.ts:6-65) are remote I/O. The schema is used only for which columns are NOT NULL. Failing to connect is the `configured` flag, and a failure of the database itself is not modelled.
- The clock (`new Date().toISOString()`) is the parameter `now`.
- Concurrency between requests is not modelled: the source has no coordination.
- Floating point arithmetic is not modelled: `quantity` and `price` are reals that are only stored, and the buy and sell volumes (app/stats/page.tsx:48-49) are left out.
- The date-fns calls are not modelled. The weekday of the first of the month and the selected date string are inputs.
- The UI, React state and console logging are not modelled.
- Http.TextField: a body value of the wrong JSON type (a number for a text field, say) is read as `undefined`. The database driver's conversion of such a value is not modelled.
- Http.RealField: a JSON string, boolean, array or object sent for `quantity`, `price` or `conviction` reads as `undefined`, so it is stored as null on create and leaves the column as it was on update. The source binds such a value as given, and SQLite's REAL affinity would store a numeric string such as `"12"` as 12. The pages send only numbers or null for these keys (app/diary/page.tsx:92-93, app/watchlist/page.tsx:102).
- `parseInt`: only decimal numerals are read; the `0x` prefix and other radixes are not modelled. Integers are unbounded, so numerals beyond the 53-bit precision of a JavaScript number, and those that overflow to `Infinity`, are not modelled.
- `Utf8.Encode`: a Dafny `char` is a Unicode scalar value, so lone surrogates, which `Buffer` writes as U+FFFD, do not occur.
- Stats.DateOrderTotalPreorder: `localeCompare` is modelled as code-point order; the two agree on `yyyy-MM-dd` dates but not on arbitrary strings.
- Stats.TopTickers: `Object.entries` yields integer-like keys first; the model keeps first-seen order, which matters only among tickers with equal counts.
- WatchlistStore.WatchlistTable.GetByTicker: SQL without `ORDER BY` fixes no row among several with one ticker; the model returns the lowest id.
- The INTEGER affinity of `conviction` is not modelled. SQLite stores 3.0 as the integer 3 and keeps 3.5 as a real, and either reads back in JavaScript as the number that was written.
- `INSERT OR REPLACE` in the watchlist batch acts as a plain insert, because no id is bound.
- The route matcher `config.matcher` is modelled by its one pattern, read as a negative lookahead of three literals at the start of the path (`Session.Excluded`). No regular-expression engine and no compilation of the pattern by Next.js is modelled.
- Session.Login: a JSON `null` body, which cannot be destructured, joins the unreadable body case (500).
- DiaryApi.Put: a non-numeric id gives 500 because the libsql client refuses to bind NaN with an error, which the route's `catch` turns into 500. The client is not part of this model.
- DiaryApi.Delete: a non-numeric id gives 500 for the same reason as in `DiaryApi.Put`.
- WatchlistApi.Put: a non-numeric id gives 500 for the same reason as in `DiaryApi.Put`.
- WatchlistApi.Delete: a non-numeric id gives 500 for the same reason as in `DiaryApi.Put`.
- Utils.GroupBy: keys are assumed not to be names of `Object.prototype` properties (`toString`, `constructor`, `__proto__`). On a plain object such a key reads an inherited value, so the source throws or loses the group.
- Stats.DailyData: dates are assumed not to be `Object.prototype` property names, as in `Utils.GroupBy`; `yyyy-MM-dd` dates never are.
- Stats.TickerData: tickers are assumed not to be `Object.prototype` property names, as in `Utils.GroupBy`. A ticker such as `constructor` would make the source's count go wrong.
- Calendar.DiaryMap: dates are assumed not to be `Object.prototype` property names, as in `Utils.GroupBy`; `yyyy-MM-dd` dates never are.
