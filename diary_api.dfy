/** The `/api/diary` route handlers (app/api/diary/route.ts): query and
    body reading, and the choice of status code around the diary store. Every
    handler first opens the database, which fails when no database URL is
    configured; `configured` stands for that. */
module DiaryApi {
  import opened Common
  import opened Http
  import opened DiaryStore
  import Sorting

  const FetchFailed := "Failed to fetch diaries"
  const CreateFailed := "Failed to create diary"
  const UpdateFailed := "Failed to update diary"
  const DeleteFailed := "Failed to delete diary"
  const IdRequired := "ID is required"
  const NotFound := "Diary not found"

  /** The listing options GET reads: `startDate`, `endDate`, `type` and
      `ticker`, a missing or empty value being no filter. */
  function QueryFilter(query: map<string, string>): (f: DiaryFilter)
    ensures f.startDate.None? <==> "startDate" !in query || query["startDate"] == ""
    ensures f.endDate.None? <==> "endDate" !in query || query["endDate"] == ""
    ensures f.kind.None? <==> "type" !in query || query["type"] == ""
    ensures f.ticker.None? <==> "ticker" !in query || query["ticker"] == ""
    ensures f.startDate.Some? ==> "startDate" in query && f.startDate.value == query["startDate"]
    ensures f.endDate.Some? ==> "endDate" in query && f.endDate.value == query["endDate"]
    ensures f.kind.Some? ==> "type" in query && f.kind.value == query["type"]
    ensures f.ticker.Some? ==> "ticker" in query && f.ticker.value == query["ticker"]
  {
    DiaryFilter(Param(query, "startDate"), Param(query, "endDate"), Param(query, "type"), Param(query, "ticker"))
  }

  /** The four keys GET reads. */
  predicate IsFilterKey(k: string) {
    k == "startDate" || k == "endDate" || k == "type" || k == "ticker"
  }

  /** GET reads no other query parameter: adding `limit`, or any other key,
      leaves the listing options as they were. */
  lemma QueryReadsOnlyFilterKeys(query: map<string, string>, k: string, v: string)
    requires !IsFilterKey(k)
    ensures QueryFilter(query[k := v]) == QueryFilter(query)
  {
    var q := query[k := v];
    assert Param(q, "startDate") == Param(query, "startDate");
    assert Param(q, "endDate") == Param(query, "endDate");
    assert Param(q, "type") == Param(query, "type");
    assert Param(q, "ticker") == Param(query, "ticker");
  }

  /** The nine body keys POST forwards and `updateDiary` inspects. */
  const FieldKeys: seq<string> := ["date", "type", "ticker", "broker", "quantity", "price", "currency", "content", "tags"]

  /** The fields the handlers hand to the store: `body.date`, `body.type`
      and so on. */
  function BodyFields(body: Body): DiaryFields {
    DiaryFields(TextField(body, "date"), TextField(body, "type"), TextField(body, "ticker"),
      TextField(body, "broker"), RealField(body, "quantity"), RealField(body, "price"),
      TextField(body, "currency"), TextField(body, "content"), TextField(body, "tags"))
  }

  /** Two bodies agree on the nine field keys. */
  predicate SameFields(a: Body, b: Body) {
    forall k | k in FieldKeys :: (k in a <==> k in b) && (k in a ==> a[k] == b[k])
  }

  /** Only the nine named keys reach the store: bodies that agree on them
      give the same fields, whatever else they hold. */
  lemma BodyReadsOnlyFieldKeys(a: Body, b: Body)
    requires SameFields(a, b)
    ensures BodyFields(a) == BodyFields(b)
  {
    assert "date" in FieldKeys && "type" in FieldKeys && "ticker" in FieldKeys;
    assert "broker" in FieldKeys && "quantity" in FieldKeys && "price" in FieldKeys;
    assert "currency" in FieldKeys && "content" in FieldKeys && "tags" in FieldKeys;
  }

  /** `id`, `createdAt` and `updatedAt` in a PUT body cannot set those columns:
      the body's fields are those without the keys, and the patched row keeps
      its id and creation time and takes the handler's `now`. */
  lemma BodyCannotSetIdOrTimestamps(body: Body, row: DiaryRecord, now: string)
    requires Updatable(BodyFields(body))
    ensures BodyFields(body) == BodyFields(body - {"id", "createdAt", "updatedAt"})
    ensures Patched(row, BodyFields(body), now).id == row.id
    ensures Patched(row, BodyFields(body), now).createdAt == row.createdAt
    ensures Patched(row, BodyFields(body), now).updatedAt == now
  {
    var rest := body - {"id", "createdAt", "updatedAt"};
    assert SameFields(body, rest) by {
      forall k | k in FieldKeys ensures (k in body <==> k in rest) && (k in body ==> body[k] == rest[k]) {
        assert k != "id" && k != "createdAt" && k != "updatedAt";
      }
    }
    BodyReadsOnlyFieldKeys(body, rest);
  }

  /** POST's answer to the store's result: 201 with the stored row, or 500
      when the store throws. */
  function CreateReply(r: Result<DiaryRecord>): (reply: Reply<DiaryRecord>)
    ensures reply.status == 201 <==> r.Ok?
    ensures r.Ok? ==> reply.payload == Record(r.value)
    ensures r.Err? ==> reply == Reply(500, Failure(CreateFailed))
  {
    match r
    case Ok(record) => Reply(201, Record(record))
    case Err(_) => Reply(500, Failure(CreateFailed))
  }

  /** PUT's answer to `updateDiary`: 404 exactly on absence, 200 with the
      record otherwise, 500 when the store throws. */
  function UpdateReply(r: Result<Option<DiaryRecord>>): (reply: Reply<DiaryRecord>)
    ensures reply.status == 404 <==> r == Ok(None)
    ensures reply.status == 200 <==> r.Ok? && r.value.Some?
    ensures reply.status == 500 <==> r.Err?
    ensures r.Ok? && r.value.Some? ==> reply.payload == Record(r.value.value)
  {
    match r
    case Ok(Some(record)) => Reply(200, Record(record))
    case Ok(None) => Reply(404, Failure(NotFound))
    case Err(_) => Reply(500, Failure(UpdateFailed))
  }

  /** DELETE's answer to `deleteDiary`: 200 `{success: true}` exactly when a
      row was removed, else 404. */
  function DeleteReply(existed: bool): (reply: Reply<DiaryRecord>)
    ensures reply.status == 200 <==> existed
    ensures reply.status == 404 <==> !existed
    ensures existed <==> reply.payload == Success
  {
    if existed then Reply(200, Success) else Reply(404, Failure(NotFound))
  }

  /** GET /api/diary. */
  method Get(table: DiaryTable, configured: bool, query: map<string, string>) returns (reply: Reply<DiaryRecord>)
    requires table.Valid()
    ensures !configured ==> reply == Reply(500, Failure(FetchFailed))
    ensures configured ==> reply.status == 200 && reply.payload.Records?
    ensures configured ==> forall r :: r in reply.payload.list <==> r in table.rows.Values && Matches(r, QueryFilter(query))
    ensures configured ==> Sorting.StrictlySortedBy(reply.payload.list, ListedBefore)
  {
    if !configured {
      return Reply(500, Failure(FetchFailed));
    }
    var list := table.GetAll(QueryFilter(query));
    return Reply(200, Records(list));
  }

  /** POST /api/diary: `body` is None when the request body is not JSON or is
      JSON `null`; either way reading the fields throws and the handler answers
      500. Any other JSON value that is not an object is the empty map, since
      every key of it reads as `undefined`. */
  method Post(table: DiaryTable, configured: bool, body: Option<Body>, now: string) returns (reply: Reply<DiaryRecord>)
    requires table.Valid()
    modifies table
    ensures table.Valid()
    ensures !configured || body.None? ==> reply == Reply(500, Failure(CreateFailed)) && table.rows == old(table.rows) && table.nextId == old(table.nextId)
    ensures configured && body.Some? && !Insertable(BodyFields(body.value)) ==>
      reply == Reply(500, Failure(CreateFailed)) && table.rows == old(table.rows) && table.nextId == old(table.nextId)
    ensures configured && body.Some? && Insertable(BodyFields(body.value)) ==>
      (reply == Reply(201, Record(Stored(BodyFields(body.value), old(table.nextId), now)))
       && table.rows == old(table.rows)[old(table.nextId) := Stored(BodyFields(body.value), old(table.nextId), now)]
       && table.nextId == old(table.nextId) + 1)
  {
    if !configured || body.None? {
      return Reply(500, Failure(CreateFailed));
    }
    var r := table.Create(BodyFields(body.value), now);
    reply := CreateReply(r);
  }

  /** PUT /api/diary?id=…: the id is checked before the body is read. A
      non-numeric id makes `parseInt` give NaN, which the database client
      refuses to bind, so the request fails like any other database error.
      `body` is None, and the answer 500, when the body is not JSON or is JSON
      `null`; any other non-object JSON value is the empty map, so only
      `updatedAt` changes. */
  method Put(table: DiaryTable, configured: bool, query: map<string, string>, body: Option<Body>, now: string)
    returns (reply: Reply<DiaryRecord>)
    requires table.Valid()
    modifies table
    ensures table.Valid()
    ensures !configured ==> reply == Reply(500, Failure(UpdateFailed)) && table.rows == old(table.rows) && table.nextId == old(table.nextId)
    ensures configured && Param(query, "id").None? ==> reply == Reply(400, Failure(IdRequired)) && table.rows == old(table.rows) && table.nextId == old(table.nextId)
    ensures configured && Param(query, "id").Some? && body.None? ==> reply == Reply(500, Failure(UpdateFailed)) && table.rows == old(table.rows) && table.nextId == old(table.nextId)
    ensures configured && Param(query, "id").Some? && body.Some? ==>
      var id := ParseInt(Param(query, "id").value);
      var p := BodyFields(body.value);
      && (id.None? ==> reply == Reply(500, Failure(UpdateFailed)) && table.rows == old(table.rows) && table.nextId == old(table.nextId))
      && (id.Some? && id.value !in old(table.rows) ==> reply == Reply(404, Failure(NotFound)) && table.rows == old(table.rows) && table.nextId == old(table.nextId))
      && (id.Some? && id.value in old(table.rows) && !Updatable(p) ==>
            reply == Reply(500, Failure(UpdateFailed)) && table.rows == old(table.rows) && table.nextId == old(table.nextId))
      && (id.Some? && id.value in old(table.rows) && Updatable(p) ==>
            (reply == Reply(200, Record(Patched(old(table.rows)[id.value], p, now)))
             && table.rows == old(table.rows)[id.value := Patched(old(table.rows)[id.value], p, now)]
             && table.nextId == old(table.nextId)))
  {
    if !configured {
      return Reply(500, Failure(UpdateFailed));
    }
    var idText := Param(query, "id");
    if idText.None? {
      return Reply(400, Failure(IdRequired));
    }
    if body.None? {
      return Reply(500, Failure(UpdateFailed));
    }
    var id := ParseInt(idText.value);
    if id.None? {
      return Reply(500, Failure(UpdateFailed));
    }
    var r := table.Update(id.value, BodyFields(body.value), now);
    reply := UpdateReply(r);
  }

  /** DELETE /api/diary?id=…: a non-numeric id makes `parseInt`
      give NaN, which the database client refuses to bind, so the request fails
      like any other database error. */
  method Delete(table: DiaryTable, configured: bool, query: map<string, string>) returns (reply: Reply<DiaryRecord>)
    requires table.Valid()
    modifies table
    ensures table.Valid()
    ensures !configured ==> reply == Reply(500, Failure(DeleteFailed)) && table.rows == old(table.rows) && table.nextId == old(table.nextId)
    ensures configured && Param(query, "id").None? ==> reply == Reply(400, Failure(IdRequired)) && table.rows == old(table.rows) && table.nextId == old(table.nextId)
    ensures configured && Param(query, "id").Some? ==>
      var id := ParseInt(Param(query, "id").value);
      && (id.None? ==> reply == Reply(500, Failure(DeleteFailed)) && table.rows == old(table.rows) && table.nextId == old(table.nextId))
      && (id.Some? && id.value !in old(table.rows) ==> reply == Reply(404, Failure(NotFound)) && table.rows == old(table.rows) && table.nextId == old(table.nextId))
      && (id.Some? && id.value in old(table.rows) ==>
            (reply == Reply(200, Success) && table.rows == old(table.rows) - {id.value}
             && table.nextId == old(table.nextId)))
  {
    if !configured {
      return Reply(500, Failure(DeleteFailed));
    }
    var idText := Param(query, "id");
    if idText.None? {
      return Reply(400, Failure(IdRequired));
    }
    var id := ParseInt(idText.value);
    if id.None? {
      return Reply(500, Failure(DeleteFailed));
    }
    var existed := table.Delete(id.value);
    reply := DeleteReply(existed);
  }
}
