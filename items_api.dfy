/**
 * The REST handlers of `/api/action-items`: the list pipeline, the
 * defaults a create fills in, the whole-record update, the two
 * single-field patches with their allow-lists, and delete. Each handler
 * takes the store, the path id and the parsed body or query; the generated
 * id and the current time are parameters. A store statement that fails
 * (a CHECK or NOT NULL violation, a duplicate id) becomes the handler's
 * 500 answer, as the `catch` blocks do.
 */
module ItemsApi {
  import opened Common
  import opened BackendModel
  import opened Store

  /** What a handler answers: a status code and a JSON body. */
  datatype Response =
    | ItemList(items: seq<ActionItem>)     // 200 with an array
    | One(item: ActionItem)                // 200 with one record
    | Created(draft: Draft, extraKeys: seq<string>)  // 201 with the record built for insertion, plus the body's other keys
    | NoContent                            // 204
    | Failure(code: int, message: string)  // 4xx or 500 with `{ error: message }`

  const NotFoundMessage := "Action item not found"

  /** A JavaScript truthiness test on an optional string: present and non-empty. */
  predicate Truthy(o: Option<string>) {
    o.Some? && o.value != ""
  }

  /** `o || fallback` on an optional string. */
  function OrElse(o: Option<string>, fallback: string): (r: string)
    ensures Truthy(o) ==> r == o.value
    ensures !Truthy(o) ==> r == fallback
  {
    if Truthy(o) then o.value else fallback
  }

  // ---------------------------------------------------------------------
  // GET /  — the list pipeline
  // ---------------------------------------------------------------------

  /** The query string of the list request; each parameter may be absent. */
  datatype Query = Query(
    status: Option<string>,
    priority: Option<string>,
    assignee: Option<string>,
    search: Option<string>,
    category: Option<string>)

  /** The category the query narrows to: only `personal` and `professional` count. */
  function QueryCategory(q: Query): (r: Option<Category>)
    ensures r.Some? <==> q.category == Some("personal") || q.category == Some("professional")
    ensures r.Some? ==> q.category == Some(CategoryName(r.value))
  {
    if q.category.Some? then ParseCategory(q.category.value) else None
  }

  /** The category narrowing: every row passes when the query names no valid category. */
  function CategoryOk(q: Query): ActionItem -> bool {
    (x: ActionItem) => QueryCategory(q).None? || x.category == QueryCategory(q).value
  }

  function StatusOk(q: Query): ActionItem -> bool {
    (x: ActionItem) => Truthy(q.status) ==> StatusName(x.status) == q.status.value
  }

  function PriorityOk(q: Query): ActionItem -> bool {
    (x: ActionItem) => Truthy(q.priority) ==> PriorityName(x.priority) == q.priority.value
  }

  function AssigneeOk(q: Query): ActionItem -> bool {
    (x: ActionItem) => Truthy(q.assignee) ==> x.assignee == q.assignee
  }

  /** Every exact-match narrowing of a query without `search`, taken together. */
  function Selected(q: Query): ActionItem -> bool {
    (x: ActionItem) => CategoryOk(q)(x) && StatusOk(q)(x) && PriorityOk(q)(x) && AssigneeOk(q)(x)
  }

  /**
   * What the list request answers. With a truthy `search`, the answer is
   * the store's search result narrowed only by a valid category; the status,
   * priority and assignee parameters play no part. Otherwise it is the
   * newest-first list of the rows that pass every given narrowing.
   */
  function ListResult(q: Query, rows: seq<ActionItem>): seq<ActionItem> {
    if Truthy(q.search) then
      Filter(OrderByCreatedDesc(Filter(DecodeAll(rows), Matching(q.search.value))), CategoryOk(q))
    else
      Filter(OrderByCreatedDesc(DecodeAll(rows)), Selected(q))
  }

  /** The answer is newest first, and holds exactly the stored rows the query selects. */
  lemma ListResultMeaning(q: Query, rows: seq<ActionItem>)
    ensures NewestFirst(ListResult(q, rows))
    ensures Truthy(q.search) ==>
      forall x :: x in ListResult(q, rows) <==>
        x in DecodeAll(rows) && SearchMatches(x, q.search.value) && CategoryOk(q)(x)
    ensures !Truthy(q.search) ==>
      forall x :: x in ListResult(q, rows) <==> x in DecodeAll(rows) && Selected(q)(x)
  {
    if Truthy(q.search) {
      var found := OrderByCreatedDesc(Filter(DecodeAll(rows), Matching(q.search.value)));
      FilterNewestFirst(found, CategoryOk(q));
      OrderByCreatedMembers(Filter(DecodeAll(rows), Matching(q.search.value)));
    } else {
      var all := OrderByCreatedDesc(DecodeAll(rows));
      FilterNewestFirst(all, Selected(q));
      OrderByCreatedMembers(DecodeAll(rows));
    }
  }

  /** With a search term, the status, priority and assignee parameters change nothing. */
  lemma SearchIgnoresExactFilters(q: Query, status: Option<string>, priority: Option<string>,
                                  assignee: Option<string>, rows: seq<ActionItem>)
    requires Truthy(q.search)
    ensures ListResult(q.(status := status, priority := priority, assignee := assignee), rows)
         == ListResult(q, rows)
  {
    var q' := q.(status := status, priority := priority, assignee := assignee);
    assert QueryCategory(q') == QueryCategory(q);
    assert forall x :: CategoryOk(q')(x) == CategoryOk(q)(x);
    assert CategoryOk(q') == CategoryOk(q);
  }

  /** A category other than `personal` or `professional` is the same as none. */
  lemma InvalidCategoryIgnored(q: Query, rows: seq<ActionItem>)
    requires q.category != Some("personal") && q.category != Some("professional")
    ensures ListResult(q, rows) == ListResult(q.(category := None), rows)
  {
    var q' := q.(category := None);
    assert QueryCategory(q).None? && QueryCategory(q').None?;
    var found := OrderByCreatedDesc(Filter(DecodeAll(rows), Matching(q.search.GetOr(""))));
    FilterSamePredicate(found, CategoryOk(q), CategoryOk(q'));
    FilterSamePredicate(OrderByCreatedDesc(DecodeAll(rows)), Selected(q), Selected(q'));
  }

  /** With no parameters at all, the list is every stored row, newest first. */
  lemma EmptyQueryListsAll(rows: seq<ActionItem>)
    ensures ListResult(Query(None, None, None, None, None), rows) == OrderByCreatedDesc(DecodeAll(rows))
  {
    var q := Query(None, None, None, None, None);
    assert QueryCategory(q).None?;
    forall x ensures Selected(q)(x) {
      assert CategoryOk(q)(x) && StatusOk(q)(x) && PriorityOk(q)(x) && AssigneeOk(q)(x);
    }
    FilterAll(OrderByCreatedDesc(DecodeAll(rows)), Selected(q));
  }

  /** The four narrowings applied one after another are the single narrowing by all of them. */
  lemma NarrowingChain(all: seq<ActionItem>, q: Query)
    ensures Filter(Filter(Filter(Filter(all, CategoryOk(q)), StatusOk(q)), PriorityOk(q)), AssigneeOk(q))
         == Filter(all, Selected(q))
  {
    var cs := (x: ActionItem) => CategoryOk(q)(x) && StatusOk(q)(x);
    var csp := (x: ActionItem) => cs(x) && PriorityOk(q)(x);
    FilterFilter(all, CategoryOk(q), StatusOk(q), cs);
    FilterFilter(all, cs, PriorityOk(q), csp);
    FilterFilter(all, csp, AssigneeOk(q), Selected(q));
  }

  /**
   * `GET /`: picks the base list (one category, or everything), narrows it
   * by each truthy exact-match parameter in turn, then, with a search term,
   * replaces it by the search result and narrows that by the category again.
   */
  method ListItems(db: Database, q: Query) returns (resp: Response)
    ensures resp == ItemList(ListResult(q, db.rows))
  {
    var items: seq<ActionItem>;
    var category := QueryCategory(q);
    ghost var all := OrderByCreatedDesc(DecodeAll(db.rows));
    if category.Some? {
      items := db.GetByCategory(category.value);
      SortedCategoryIsFilter(db.rows, category.value);
      FilterSamePredicate(all, InCategory(category.value), CategoryOk(q));
    } else {
      items := db.GetAll();
      FilterAll(all, CategoryOk(q));
    }
    assert items == Filter(all, CategoryOk(q));
    items := NarrowExact(items, q);
    NarrowingChain(all, q);
    if Truthy(q.search) {
      items := db.Search(q.search.value);
      if category.Some? {
        FilterSamePredicate(items, InCategory(category.value), CategoryOk(q));
        items := Filter(items, InCategory(category.value));
      } else {
        FilterAll(items, CategoryOk(q));
      }
    }
    resp := ItemList(items);
  }

  /** The status, priority and assignee narrowings, each applied only when its parameter is truthy. */
  method NarrowExact(base: seq<ActionItem>, q: Query) returns (items: seq<ActionItem>)
    ensures items == Filter(Filter(Filter(base, StatusOk(q)), PriorityOk(q)), AssigneeOk(q))
  {
    items := base;
    if Truthy(q.status) {
      items := Filter(items, StatusOk(q));
    } else {
      FilterAll(items, StatusOk(q));
    }
    ghost var afterStatus := items;
    if Truthy(q.priority) {
      items := Filter(items, PriorityOk(q));
    } else {
      FilterAll(items, PriorityOk(q));
    }
    ghost var afterPriority := items;
    if Truthy(q.assignee) {
      items := Filter(items, AssigneeOk(q));
    } else {
      FilterAll(items, AssigneeOk(q));
    }
    assert afterStatus == Filter(base, StatusOk(q));
    assert afterPriority == Filter(afterStatus, PriorityOk(q));
  }

  /**
   * Narrowing to a category before or after the newest-first sort gives
   * the same rows in the same order.
   */
  lemma SortedCategoryIsFilter(rows: seq<ActionItem>, c: Category)
    ensures OrderByCreatedDesc(Filter(DecodeAll(rows), InCategory(c)))
         == Filter(OrderByCreatedDesc(DecodeAll(rows)), InCategory(c))
  {
    SortFilterCommute(DecodeAll(rows), InCategory(c));
  }

  // ---------------------------------------------------------------------
  // GET /:id
  // ---------------------------------------------------------------------

  /** `GET /:id`: the row, or 404 when no row has that id. */
  method GetOne(db: Database, id: string) returns (resp: Response)
    ensures !HasId(db.rows, id) <==> resp == Failure(404, NotFoundMessage)
    ensures HasId(db.rows, id) ==> resp.One? && resp.item.id == id && resp.item in DecodeAll(db.rows)
  {
    var item := db.GetById(id);
    if item.None? {
      resp := Failure(404, NotFoundMessage);
    } else {
      resp := One(item.value);
    }
  }

  // ---------------------------------------------------------------------
  // POST /
  // ---------------------------------------------------------------------

  /**
   * The record `POST /` builds from a request body: a fresh id that a body
   * `id` overrides, the body's fields, `todo`, `medium` and `personal` for
   * a missing or empty status, priority and category, and the current time
   * for both timestamps whatever the body says.
   */
  function NewItem(body: Changes, freshId: string, now: string): (d: Draft)
    ensures d.id == if body.id.Some? then body.id.value else freshId
    ensures d.createdAt == now && d.updatedAt == now
    ensures d.status == OrElse(body.status, "todo")
    ensures d.priority == OrElse(body.priority, "medium")
    ensures d.category == Some(OrElse(body.category, "personal"))
  {
    Draft(
      if body.id.Some? then body.id.value else freshId,
      body.title,
      body.description,
      OrElse(body.status, "todo"),
      OrElse(body.priority, "medium"),
      Some(OrElse(body.category, "personal")),
      body.forWhom,
      body.dueDate,
      now,
      now,
      body.assignee,
      body.tags)
  }

  /** The body a client sends for a typed create payload. */
  function BodyOf(dto: CreateDto): Changes {
    Changes(None, Some(dto.title), Some(dto.description), Some(StatusName(dto.status)),
            Some(PriorityName(dto.priority)), Some(CategoryName(dto.category)),
            dto.forWhom, dto.dueDate, None, None, dto.assignee, dto.tags, [])
  }

  /**
   * A well-typed create payload always satisfies the schema, and the row
   * stored is the payload with the generated id and one creation time.
   */
  lemma TypedCreateStoresPayload(dto: CreateDto, freshId: string, now: string)
    ensures Insertable(NewItem(BodyOf(dto), freshId, now))
    ensures RowOf(NewItem(BodyOf(dto), freshId, now)) == WithIdentity(dto, freshId, now)
  {
    NamesRoundTrip(dto.status, dto.priority, dto.category);
  }

  /** Timestamps in the body never reach the new record. */
  lemma BodyTimestampsIgnored(body: Changes, createdAt: Option<string>, updatedAt: Option<string>,
                              freshId: string, now: string)
    ensures NewItem(body.(createdAt := createdAt, updatedAt := updatedAt), freshId, now)
         == NewItem(body, freshId, now)
  {
  }

  /** An empty body still yields a record with all three defaults; it fails only for lack of a title. */
  lemma EmptyBodyDefaults(freshId: string, now: string)
    ensures var d := NewItem(Changes(None, None, None, None, None, None, None, None, None, None, None, None, []), freshId, now);
      d.status == "todo" && d.priority == "medium" && d.category == Some("personal")
      && d.id == freshId && !Insertable(d)
  {
  }

  /**
   * `POST /`: inserts the built record and answers 201 with it, or 500 when
   * the store refuses it (no title, a value outside an allow-list, an id
   * already in use). The answer is the spread body, so it also echoes the
   * body's keys that name no column, which the insert never stores.
   */
  method CreateItem(db: Database, body: Changes, freshId: string, now: string) returns (resp: Response)
    requires db.Valid()
    modifies db
    ensures db.Valid()
    ensures var d := NewItem(body, freshId, now);
      if Insertable(d) && !HasId(old(db.rows), d.id) then
        resp == Created(d, body.unknownKeys) && db.rows == old(db.rows) + [RowOf(d)]
      else
        resp == Failure(500, "Failed to create action item") && db.rows == old(db.rows)
  {
    var d := NewItem(body, freshId, now);
    var ok := db.Create(d);
    if ok {
      resp := Created(d, body.unknownKeys);
    } else {
      resp := Failure(500, "Failed to create action item");
    }
  }

  // ---------------------------------------------------------------------
  // PUT /:id, PATCH /:id/status, PATCH /:id/category, DELETE /:id
  // ---------------------------------------------------------------------

  /** The partial record `PUT /:id` hands to the store: the body with `updated_at` set to now. */
  function PutChanges(body: Changes, now: string): (ch: Changes)
    ensures ch.updatedAt == Some(now)
    ensures ch.(updatedAt := body.updatedAt) == body
  {
    body.(updatedAt := Some(now))
  }

  /** The partial record a status patch hands to the store. */
  function StatusChanges(status: string, now: string): Changes {
    Changes(None, None, None, Some(status), None, None, None, None, None, Some(now), None, None, [])
  }

  /** The partial record a category patch hands to the store. */
  function CategoryChanges(category: string, now: string): Changes {
    Changes(None, None, None, None, None, Some(category), None, None, None, Some(now), None, None, [])
  }

  /** Every `PUT` writes at least `updated_at`, so its `SET` list is never empty. */
  lemma PutAlwaysSets(body: Changes, now: string)
    ensures SetClause(PutChanges(body, now)) != []
  {
    SetClauseEmpty(PutChanges(body, now));
    assert Supplied(PutChanges(body, now), UpdatedAtCol);
  }

  /**
   * `PUT /:id` writes a body `created_at` like any other column, so an
   * update can leave a row created after it was last updated.
   */
  lemma PutRewritesCreatedAt(row: ActionItem, body: Changes, created: string, now: string)
    requires ChecksPass(body)
    ensures var r := UpdatedFields(row, PutChanges(body.(createdAt := Some(created)), now));
      r.createdAt == created && r.updatedAt == now
      && (StrLess(now, created) ==> StrLess(r.updatedAt, r.createdAt))
  {
  }

  /** The body a client sends for a typed update payload: only the fields it sets. */
  function UpdateBodyOf(dto: UpdateDto): Changes {
    Changes(None, dto.title, dto.description,
            if dto.status.Some? then Some(StatusName(dto.status.value)) else None,
            if dto.priority.Some? then Some(PriorityName(dto.priority.value)) else None,
            if dto.category.Some? then Some(CategoryName(dto.category.value)) else None,
            dto.forWhom, dto.dueDate, None, None, dto.assignee, dto.tags, [])
  }

  /**
   * A well-typed update payload always passes the schema's checks and names
   * only columns; the row it leaves keeps its id and creation time, takes
   * every field the payload sets, and is stamped with the update time.
   */
  lemma TypedUpdateApplies(dto: UpdateDto, row: ActionItem, now: string)
    ensures var ch := PutChanges(UpdateBodyOf(dto), now);
      ChecksPass(ch) && ch.unknownKeys == [] && SetClause(ch) != []
      && UpdatedFields(row, ch) == row.(
           title := dto.title.GetOr(row.title),
           description := if dto.description.Some? then dto.description else row.description,
           status := dto.status.GetOr(row.status),
           priority := dto.priority.GetOr(row.priority),
           category := dto.category.GetOr(row.category),
           forWhom := if dto.forWhom.Some? then dto.forWhom else row.forWhom,
           dueDate := if dto.dueDate.Some? then dto.dueDate else row.dueDate,
           updatedAt := now,
           assignee := if dto.assignee.Some? then dto.assignee else row.assignee,
           tags := if dto.tags.Some? then dto.tags else row.tags)
  {
    var ch := PutChanges(UpdateBodyOf(dto), now);
    NamesRoundTrip(dto.status.GetOr(row.status), dto.priority.GetOr(row.priority), dto.category.GetOr(row.category));
    assert ChecksPass(ch);
    assert SetClause(ch) != [] by { PutAlwaysSets(UpdateBodyOf(dto), now); }
  }

  /** A status patch changes the status and `updated_at` of the row and nothing else. */
  lemma StatusPatchEffect(row: ActionItem, s: Status, now: string)
    ensures ChecksPass(StatusChanges(StatusName(s), now))
    ensures SetColumns(row, StatusChanges(StatusName(s), now), SetClause(StatusChanges(StatusName(s), now)))
         == row.(status := s, updatedAt := now)
  {
    NamesRoundTrip(s, row.priority, row.category);
    UpdateIsFieldwise(row, StatusChanges(StatusName(s), now));
  }

  /** A category patch changes the category and `updated_at` of the row and nothing else. */
  lemma CategoryPatchEffect(row: ActionItem, c: Category, now: string)
    ensures ChecksPass(CategoryChanges(CategoryName(c), now))
    ensures SetColumns(row, CategoryChanges(CategoryName(c), now), SetClause(CategoryChanges(CategoryName(c), now)))
         == row.(category := c, updatedAt := now)
  {
    NamesRoundTrip(row.status, row.priority, c);
    UpdateIsFieldwise(row, CategoryChanges(CategoryName(c), now));
  }

  /** The row with `id` after an update addressed to it still exists and is found. */
  lemma UpdatedRowFound(rows: seq<ActionItem>, id: string, ch: Changes)
    requires ChecksPass(ch) && UniqueIds(rows) && HasId(rows, id)
    ensures UniqueIds(UpdatedRows(rows, id, ch))
    ensures FindById(UpdatedRows(rows, id, ch), id) == Some(SetColumns(FindById(rows, id).value, ch, SetClause(ch)))
  {
    var after := UpdatedRows(rows, id, ch);
    var k :| 0 <= k < |rows| && rows[k].id == id;
    FindByIdUnique(rows, id, k);
    SameIdsUnique(rows, after);
    assert after[k] == SetColumns(rows[k], ch, SetClause(ch));
    FindByIdUnique(after, id, k);
  }

  /** Rows that keep their ids position by position keep them unique. */
  lemma SameIdsUnique(rows: seq<ActionItem>, after: seq<ActionItem>)
    requires UniqueIds(rows) && |after| == |rows|
    requires forall i :: 0 <= i < |rows| ==> after[i].id == rows[i].id
    ensures UniqueIds(after)
  {
  }

  /**
   * The shared tail of `PUT` and both patches: after the row was found,
   * run the update and answer with the row read back, or 500 with the
   * handler's message when the store refuses the values.
   */
  method UpdateAndReadBack(db: Database, id: string, ch: Changes, failure: string) returns (resp: Response)
    requires db.Valid() && HasId(db.rows, id) && SetClause(ch) != []
    modifies db
    ensures db.Valid()
    ensures ChecksPass(ch) && ch.unknownKeys == [] ==>
      (db.rows == UpdatedRows(old(db.rows), id, ch)
       && resp == One(Decode(SetColumns(FindById(old(db.rows), id).value, ch, SetClause(ch)))))
    ensures !(ChecksPass(ch) && ch.unknownKeys == []) ==> db.rows == old(db.rows) && resp == Failure(500, failure)
  {
    ghost var before := db.rows;
    var ok := db.Update(id, ch);
    if !ok {
      resp := Failure(500, failure);
      return;
    }
    UpdatedRowFound(before, id, ch);
    var item := db.GetById(id);
    resp := One(item.value);
  }

  /**
   * `PUT /:id`: 404 for an unknown id; otherwise every supplied key except
   * `id`, plus `updated_at`, is written and the answer is the row read
   * back, or 500 with nothing written when a value breaks a CHECK
   * constraint or a key names no column.
   */
  method UpdateItem(db: Database, id: string, body: Changes, now: string) returns (resp: Response)
    requires db.Valid()
    modifies db
    ensures db.Valid()
    ensures !HasId(old(db.rows), id) ==> resp == Failure(404, NotFoundMessage) && db.rows == old(db.rows)
    ensures HasId(old(db.rows), id) && ChecksPass(body) && body.unknownKeys == [] ==>
      db.rows == UpdatedRows(old(db.rows), id, PutChanges(body, now))
      && resp == One(Decode(UpdatedFields(FindById(old(db.rows), id).value, PutChanges(body, now))))
    ensures HasId(old(db.rows), id) && !(ChecksPass(body) && body.unknownKeys == []) ==>
      db.rows == old(db.rows) && resp == Failure(500, "Failed to update action item")
  {
    var existing := db.GetById(id);
    if existing.None? {
      resp := Failure(404, NotFoundMessage);
      return;
    }
    PutAlwaysSets(body, now);
    ghost var ch := PutChanges(body, now);
    assert ch.status == body.status && ch.priority == body.priority && ch.category == body.category;
    assert ch.unknownKeys == body.unknownKeys;
    assert ChecksPass(ch) == ChecksPass(body);
    ghost var row := FindById(db.rows, id).value;
    resp := UpdateAndReadBack(db, id, PutChanges(body, now), "Failed to update action item");
    if ChecksPass(ch) {
      UpdateIsFieldwise(row, ch);
    }
  }

  /**
   * `PATCH /:id/status`: 400 for anything but `todo` or `done`, checked
   * before the store is read; then 404 for an unknown id; otherwise only
   * the status and `updated_at` change.
   */
  method PatchStatus(db: Database, id: string, status: Option<string>, now: string) returns (resp: Response)
    requires db.Valid()
    modifies db
    ensures db.Valid()
    ensures (status.None? || ParseStatus(status.value).None?) ==>
      resp == Failure(400, "Invalid status") && db.rows == old(db.rows)
    ensures status.Some? && ParseStatus(status.value).Some? && !HasId(old(db.rows), id) ==>
      resp == Failure(404, NotFoundMessage) && db.rows == old(db.rows)
    ensures status.Some? && ParseStatus(status.value).Some? && HasId(old(db.rows), id) ==>
      db.rows == UpdatedRows(old(db.rows), id, StatusChanges(status.value, now))
      && resp == One(Decode(FindById(old(db.rows), id).value.(status := ParseStatus(status.value).value, updatedAt := now)))
  {
    if status.None? || (status.value != "todo" && status.value != "done") {
      resp := Failure(400, "Invalid status");
      return;
    }
    var existing := db.GetById(id);
    if existing.None? {
      resp := Failure(404, NotFoundMessage);
      return;
    }
    var s := ParseStatus(status.value).value;
    StatusPatchEffect(FindById(db.rows, id).value, s, now);
    PutAlwaysSets(StatusChanges(status.value, now), now);
    assert PutChanges(StatusChanges(status.value, now), now) == StatusChanges(status.value, now);
    resp := UpdateAndReadBack(db, id, StatusChanges(status.value, now), "Failed to update status");
  }

  /**
   * `PATCH /:id/category`: 400 for anything but `personal` or
   * `professional`, checked before the store is read; then 404 for an
   * unknown id; otherwise only the category and `updated_at` change.
   */
  method PatchCategory(db: Database, id: string, category: Option<string>, now: string) returns (resp: Response)
    requires db.Valid()
    modifies db
    ensures db.Valid()
    ensures (category.None? || ParseCategory(category.value).None?) ==>
      resp == Failure(400, "Invalid category") && db.rows == old(db.rows)
    ensures category.Some? && ParseCategory(category.value).Some? && !HasId(old(db.rows), id) ==>
      resp == Failure(404, NotFoundMessage) && db.rows == old(db.rows)
    ensures category.Some? && ParseCategory(category.value).Some? && HasId(old(db.rows), id) ==>
      db.rows == UpdatedRows(old(db.rows), id, CategoryChanges(category.value, now))
      && resp == One(Decode(FindById(old(db.rows), id).value.(category := ParseCategory(category.value).value, updatedAt := now)))
  {
    if category.None? || (category.value != "personal" && category.value != "professional") {
      resp := Failure(400, "Invalid category");
      return;
    }
    var existing := db.GetById(id);
    if existing.None? {
      resp := Failure(404, NotFoundMessage);
      return;
    }
    var c := ParseCategory(category.value).value;
    CategoryPatchEffect(FindById(db.rows, id).value, c, now);
    PutAlwaysSets(CategoryChanges(category.value, now), now);
    assert PutChanges(CategoryChanges(category.value, now), now) == CategoryChanges(category.value, now);
    resp := UpdateAndReadBack(db, id, CategoryChanges(category.value, now), "Failed to update category");
  }

  /** `DELETE /:id`: 404 for an unknown id; otherwise the row is removed and the answer is 204. */
  method DeleteItem(db: Database, id: string) returns (resp: Response)
    requires db.Valid()
    modifies db
    ensures db.Valid()
    ensures !HasId(old(db.rows), id) ==> resp == Failure(404, NotFoundMessage) && db.rows == old(db.rows)
    ensures HasId(old(db.rows), id) ==>
      (resp == NoContent && !HasId(db.rows, id)
       && db.rows == Filter(old(db.rows), IdIsNot(id))
       && forall x :: x in db.rows <==> x in old(db.rows) && x.id != id)
  {
    var existing := db.GetById(id);
    if existing.None? {
      resp := Failure(404, NotFoundMessage);
      return;
    }
    db.Delete(id);
    resp := NoContent;
  }
}
