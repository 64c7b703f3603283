/** The `/api/watchlist` route handlers (app/api/watchlist/route.ts): query
    and body reading, and the choice of status code around the watchlist store. Every
    handler first opens the database, which fails when no database URL is
    configured; `configured` stands for that. */
module WatchlistApi {
  import opened Common
  import opened Http
  import opened WatchlistStore
  import Sorting

  const FetchFailed := "Failed to fetch watchlist"
  const CreateFailed := "Failed to create stock"
  const UpdateFailed := "Failed to update stock"
  const DeleteFailed := "Failed to delete stock"
  const IdRequired := "ID is required"
  const NotFound := "Stock not found"

  /** The listing options GET reads: `category`, `status` and `search`, a
      missing or empty value being no filter. */
  function QueryFilter(query: map<string, string>): (f: WatchlistFilter)
    ensures f.category.None? <==> "category" !in query || query["category"] == ""
    ensures f.status.None? <==> "status" !in query || query["status"] == ""
    ensures f.search.None? <==> "search" !in query || query["search"] == ""
    ensures f.category.Some? ==> "category" in query && f.category.value == query["category"]
    ensures f.status.Some? ==> "status" in query && f.status.value == query["status"]
    ensures f.search.Some? ==> "search" in query && f.search.value == query["search"]
  {
    WatchlistFilter(Param(query, "category"), Param(query, "status"), Param(query, "search"))
  }

  /** The three keys GET reads. */
  predicate IsFilterKey(k: string) {
    k == "category" || k == "status" || k == "search"
  }

  /** GET reads no other query parameter. */
  lemma QueryReadsOnlyFilterKeys(query: map<string, string>, k: string, v: string)
    requires !IsFilterKey(k)
    ensures QueryFilter(query[k := v]) == QueryFilter(query)
  {
    var q := query[k := v];
    assert Param(q, "category") == Param(query, "category");
    assert Param(q, "status") == Param(query, "status");
    assert Param(q, "search") == Param(query, "search");
  }

  /** The twelve body keys POST forwards and `updateWatchlist` inspects. */
  const FieldKeys: seq<string> :=
    ["ticker", "name", "exchange", "category", "tags", "thesis", "risk", "notes", "conviction",
     "positionSize", "addedDate", "status"]

  /** The fields the handlers hand to the store: `body.ticker`, `body.name`
      and so on. */
  function BodyFields(body: Body): WatchlistFields {
    WatchlistFields(TextField(body, "ticker"), TextField(body, "name"), TextField(body, "exchange"),
      TextField(body, "category"), TextField(body, "tags"), TextField(body, "thesis"),
      TextField(body, "risk"), TextField(body, "notes"), RealField(body, "conviction"),
      TextField(body, "positionSize"), TextField(body, "addedDate"), TextField(body, "status"))
  }

  /** Two bodies agree on the twelve field keys. */
  predicate SameFields(a: Body, b: Body) {
    forall k | k in FieldKeys :: (k in a <==> k in b) && (k in a ==> a[k] == b[k])
  }

  /** Only the twelve named keys reach the store: bodies that agree on them
      give the same fields, whatever else they hold. */
  lemma BodyReadsOnlyFieldKeys(a: Body, b: Body)
    requires SameFields(a, b)
    ensures BodyFields(a) == BodyFields(b)
  {
    assert "ticker" in FieldKeys && "name" in FieldKeys && "exchange" in FieldKeys;
    assert "category" in FieldKeys && "tags" in FieldKeys && "thesis" in FieldKeys;
    assert "risk" in FieldKeys && "notes" in FieldKeys && "conviction" in FieldKeys;
    assert "positionSize" in FieldKeys && "addedDate" in FieldKeys && "status" in FieldKeys;
  }

  /** `id`, `createdAt` and `updatedAt` in a PUT body cannot set those columns:
      the body's fields are those without the keys, and the patched row keeps
      its id and creation time and takes the handler's `now`. */
  lemma BodyCannotSetIdOrTimestamps(body: Body, row: WatchlistRecord, now: string)
    requires Updatable(BodyFields(body))
    ensures BodyFields(body) == BodyFields(body - {"id", "createdAt", "updatedAt"})
    ensures Patched(row, BodyFields(body), now).id == row.id
    ensures Patched(row, BodyFields(body), now).createdAt == row.createdAt
    ensures Patched(row, BodyFields(body), now).updatedAt == now
  {
    var rest := body - {"id", "createdAt", "updatedAt"};
    assert SameFields(body, rest) by {
      forall k | k in FieldKeys ensures (k in body <==> k in rest) && (k in body ==> body[k] == rest[k]) {
        assert k != "id" && k != "createdAt" && k != "updatedAt";
      }
    }
    BodyReadsOnlyFieldKeys(body, rest);
  }

  /** POST's answer to the store's result: 201 with the stored row, or 500
      when the store throws. */
  function CreateReply(r: Result<WatchlistRecord>): (reply: Reply<WatchlistRecord>)
    ensures reply.status == 201 <==> r.Ok?
    ensures r.Ok? ==> reply.payload == Record(r.value)
    ensures r.Err? ==> reply == Reply(500, Failure(CreateFailed))
  {
    match r
    case Ok(record) => Reply(201, Record(record))
    case Err(_) => Reply(500, Failure(CreateFailed))
  }

  /** PUT's answer to `updateWatchlist`: 404 exactly on absence, 200 with the
      record otherwise, 500 when the store throws. */
  function UpdateReply(r: Result<Option<WatchlistRecord>>): (reply: Reply<WatchlistRecord>)
    ensures reply.status == 404 <==> r == Ok(None)
    ensures reply.status == 200 <==> r.Ok? && r.value.Some?
    ensures reply.status == 500 <==> r.Err?
    ensures r.Ok? && r.value.Some? ==> reply.payload == Record(r.value.value)
  {
    match r
    case Ok(Some(record)) => Reply(200, Record(record))
    case Ok(None) => Reply(404, Failure(NotFound))
    case Err(_) => Reply(500, Failure(UpdateFailed))
  }

  /** DELETE's answer to `deleteWatchlist`: 200 `{success: true}` exactly when a
      row was removed, else 404. */
  function DeleteReply(existed: bool): (reply: Reply<WatchlistRecord>)
    ensures reply.status == 200 <==> existed
    ensures reply.status == 404 <==> !existed
    ensures existed <==> reply.payload == Success
  {
    if existed then Reply(200, Success) else Reply(404, Failure(NotFound))
  }

  /** GET /api/watchlist. */
  method Get(table: WatchlistTable, configured: bool, query: map<string, string>) returns (reply: Reply<WatchlistRecord>)
    requires table.Valid()
    ensures !configured ==> reply == Reply(500, Failure(FetchFailed))
    ensures configured ==> reply.status == 200 && reply.payload.Records?
    ensures configured ==> forall r :: r in reply.payload.list <==> r in table.rows.Values && Matches(r, QueryFilter(query))
    ensures configured ==> Sorting.StrictlySortedBy(reply.payload.list, ListedBefore)
  {
    if !configured {
      return Reply(500, Failure(FetchFailed));
    }
    var list := table.GetAll(QueryFilter(query));
    return Reply(200, Records(list));
  }

  /** POST /api/watchlist: `body` is None when the request body is not JSON or is
      JSON `null`; either way reading the fields throws and the handler answers
      500. Any other JSON value that is not an object is the empty map, since
      every key of it reads as `undefined`. */
  method Post(table: WatchlistTable, configured: bool, body: Option<Body>, now: string) returns (reply: Reply<WatchlistRecord>)
    requires table.Valid()
    modifies table
    ensures table.Valid()
    ensures !configured || body.None? ==> reply == Reply(500, Failure(CreateFailed)) && table.rows == old(table.rows) && table.nextId == old(table.nextId)
    ensures configured && body.Some? && !Insertable(BodyFields(body.value)) ==>
      reply == Reply(500, Failure(CreateFailed)) && table.rows == old(table.rows) && table.nextId == old(table.nextId)
    ensures configured && body.Some? && Insertable(BodyFields(body.value)) ==>
      (reply == Reply(201, Record(Stored(BodyFields(body.value), old(table.nextId), now)))
       && table.rows == old(table.rows)[old(table.nextId) := Stored(BodyFields(body.value), old(table.nextId), now)]
       && table.nextId == old(table.nextId) + 1)
  {
    if !configured || body.None? {
      return Reply(500, Failure(CreateFailed));
    }
    var r := table.Create(BodyFields(body.value), now);
    reply := CreateReply(r);
  }

  /** PUT /api/watchlist?id=…: the id is checked before the body is read. A
      non-numeric id makes `parseInt` give NaN, which the database client
      refuses to bind, so the request fails like any other database error.
      `body` is None, and the answer 500, when the body is not JSON or is JSON
      `null`; any other non-object JSON value is the empty map, so only
      `updatedAt` changes. */
  method Put(table: WatchlistTable, configured: bool, query: map<string, string>, body: Option<Body>, now: string)
    returns (reply: Reply<WatchlistRecord>)
    requires table.Valid()
    modifies table
    ensures table.Valid()
    ensures !configured ==> reply == Reply(500, Failure(UpdateFailed)) && table.rows == old(table.rows) && table.nextId == old(table.nextId)
    ensures configured && Param(query, "id").None? ==> reply == Reply(400, Failure(IdRequired)) && table.rows == old(table.rows) && table.nextId == old(table.nextId)
    ensures configured && Param(query, "id").Some? && body.None? ==> reply == Reply(500, Failure(UpdateFailed)) && table.rows == old(table.rows) && table.nextId == old(table.nextId)
    ensures configured && Param(query, "id").Some? && body.Some? ==>
      var id := ParseInt(Param(query, "id").value);
      var p := BodyFields(body.value);
      && (id.None? ==> reply == Reply(500, Failure(UpdateFailed)) && table.rows == old(table.rows) && table.nextId == old(table.nextId))
      && (id.Some? && id.value !in old(table.rows) ==> reply == Reply(404, Failure(NotFound)) && table.rows == old(table.rows) && table.nextId == old(table.nextId))
      && (id.Some? && id.value in old(table.rows) && !Updatable(p) ==>
            reply == Reply(500, Failure(UpdateFailed)) && table.rows == old(table.rows) && table.nextId == old(table.nextId))
      && (id.Some? && id.value in old(table.rows) && Updatable(p) ==>
            (reply == Reply(200, Record(Patched(old(table.rows)[id.value], p, now)))
             && table.rows == old(table.rows)[id.value := Patched(old(table.rows)[id.value], p, now)]
             && table.nextId == old(table.nextId)))
  {
    if !configured {
      return Reply(500, Failure(UpdateFailed));
    }
    var idText := Param(query, "id");
    if idText.None? {
      return Reply(400, Failure(IdRequired));
    }
    if body.None? {
      return Reply(500, Failure(UpdateFailed));
    }
    var id := ParseInt(idText.value);
    if id.None? {
      return Reply(500, Failure(UpdateFailed));
    }
    var r := table.Update(id.value, BodyFields(body.value), now);
    reply := UpdateReply(r);
  }

  /** DELETE /api/watchlist?id=…: a non-numeric id makes `parseInt`
      give NaN, which the database client refuses to bind, so the request fails
      like any other database error. */
  method Delete(table: WatchlistTable, configured: bool, query: map<string, string>) returns (reply: Reply<WatchlistRecord>)
    requires table.Valid()
    modifies table
    ensures table.Valid()
    ensures !configured ==> reply == Reply(500, Failure(DeleteFailed)) && table.rows == old(table.rows) && table.nextId == old(table.nextId)
    ensures configured && Param(query, "id").None? ==> reply == Reply(400, Failure(IdRequired)) && table.rows == old(table.rows) && table.nextId == old(table.nextId)
    ensures configured && Param(query, "id").Some? ==>
      var id := ParseInt(Param(query, "id").value);
      && (id.None? ==> reply == Reply(500, Failure(DeleteFailed)) && table.rows == old(table.rows) && table.nextId == old(table.nextId))
      && (id.Some? && id.value !in old(table.rows) ==> reply == Reply(404, Failure(NotFound)) && table.rows == old(table.rows) && table.nextId == old(table.nextId))
      && (id.Some? && id.value in old(table.rows) ==>
            (reply == Reply(200, Success) && table.rows == old(table.rows) - {id.value}
             && table.nextId == old(table.nextId)))
  {
    if !configured {
      return Reply(500, Failure(DeleteFailed));
    }
    var idText := Param(query, "id");
    if idText.None? {
      return Reply(400, Failure(IdRequired));
    }
    var id := ParseInt(idText.value);
    if id.None? {
      return Reply(500, Failure(DeleteFailed));
    }
    var existed := table.Delete(id.value);
    reply := DeleteReply(existed);
  }
}
