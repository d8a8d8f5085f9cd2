/**
 * The item store: the `action_items` table and the operations of the
 * `Database` class over it. The table is a sequence of rows in insertion
 * order; the SQL text, callbacks and promises are not modelled, only what
 * each statement does to the table and what it returns.
 */
module Store {
  import opened Common
  import opened BackendModel

  // ---------------------------------------------------------------------
  // What the callers hand to the store
  // ---------------------------------------------------------------------

  /**
   * The object handed to `create`. It is typed as an action item, but the
   * router builds it from a request body, so the title may be missing and
   * the enumeration fields carry whatever text the body held.
   */
  datatype Draft = Draft(
    id: string,
    title: Option<string>,
    description: Option<string>,
    status: string,
    priority: string,
    category: Option<string>,
    forWhom: Option<string>,
    dueDate: Option<string>,
    createdAt: string,
    updatedAt: string,
    assignee: Option<string>,
    tags: Option<seq<string>>)

  /**
   * The partial record handed to `update`: each key is present or absent,
   * and the enumeration keys carry raw text. `unknownKeys` lists the keys
   * of the record that name no column of the table.
   */
  datatype Changes = Changes(
    id: Option<string>,
    title: Option<string>,
    description: Option<string>,
    status: Option<string>,
    priority: Option<string>,
    category: Option<string>,
    forWhom: Option<string>,
    dueDate: Option<string>,
    createdAt: Option<string>,
    updatedAt: Option<string>,
    assignee: Option<string>,
    tags: Option<seq<string>>,
    unknownKeys: seq<string>)

  // ---------------------------------------------------------------------
  // Columns and cells
  // ---------------------------------------------------------------------

  datatype Column =
    | IdCol | TitleCol | DescriptionCol | StatusCol | PriorityCol | CategoryCol
    | ForWhomCol | DueDateCol | CreatedAtCol | UpdatedAtCol | AssigneeCol | TagsCol

  /** The columns of the table, in the order the schema declares them. */
  const AllColumns: seq<Column> :=
    [IdCol, TitleCol, DescriptionCol, StatusCol, PriorityCol, CategoryCol,
     ForWhomCol, DueDateCol, CreatedAtCol, UpdatedAtCol, AssigneeCol, TagsCol]

  lemma AllColumnsComplete(c: Column)
    ensures c in AllColumns
  {
  }

  /** The value of one column of one row; `TextList` stands for the JSON text of a tag list. */
  datatype Cell = Null | Text(text: string) | TextList(items: seq<string>)

  function OptText(o: Option<string>): Cell {
    match o
    case None => Null
    case Some(s) => Text(s)
  }

  function CellOf(row: ActionItem, c: Column): Cell {
    match c
    case IdCol => Text(row.id)
    case TitleCol => Text(row.title)
    case DescriptionCol => OptText(row.description)
    case StatusCol => Text(StatusName(row.status))
    case PriorityCol => Text(PriorityName(row.priority))
    case CategoryCol => Text(CategoryName(row.category))
    case ForWhomCol => OptText(row.forWhom)
    case DueDateCol => OptText(row.dueDate)
    case CreatedAtCol => Text(row.createdAt)
    case UpdatedAtCol => Text(row.updatedAt)
    case AssigneeCol => OptText(row.assignee)
    case TagsCol => if row.tags.Some? then TextList(row.tags.value) else Null
  }

  /** Two rows with the same cells are the same row. */
  lemma CellsDetermineRow(a: ActionItem, b: ActionItem)
    requires forall c :: CellOf(a, c) == CellOf(b, c)
    ensures a == b
  {
    assert CellOf(a, IdCol) == CellOf(b, IdCol);
    assert CellOf(a, TitleCol) == CellOf(b, TitleCol);
    assert CellOf(a, DescriptionCol) == CellOf(b, DescriptionCol);
    assert CellOf(a, StatusCol) == CellOf(b, StatusCol);
    NamesRoundTrip(a.status, a.priority, a.category);
    NamesRoundTrip(b.status, b.priority, b.category);
    assert CellOf(a, PriorityCol) == CellOf(b, PriorityCol);
    assert CellOf(a, CategoryCol) == CellOf(b, CategoryCol);
    assert CellOf(a, ForWhomCol) == CellOf(b, ForWhomCol);
    assert CellOf(a, DueDateCol) == CellOf(b, DueDateCol);
    assert CellOf(a, CreatedAtCol) == CellOf(b, CreatedAtCol);
    assert CellOf(a, UpdatedAtCol) == CellOf(b, UpdatedAtCol);
    assert CellOf(a, AssigneeCol) == CellOf(b, AssigneeCol);
    assert CellOf(a, TagsCol) == CellOf(b, TagsCol);
  }

  /** Whether the partial record has a key for column `c`. */
  predicate Supplied(ch: Changes, c: Column) {
    match c
    case IdCol => ch.id.Some?
    case TitleCol => ch.title.Some?
    case DescriptionCol => ch.description.Some?
    case StatusCol => ch.status.Some?
    case PriorityCol => ch.priority.Some?
    case CategoryCol => ch.category.Some?
    case ForWhomCol => ch.forWhom.Some?
    case DueDateCol => ch.dueDate.Some?
    case CreatedAtCol => ch.createdAt.Some?
    case UpdatedAtCol => ch.updatedAt.Some?
    case AssigneeCol => ch.assignee.Some?
    case TagsCol => ch.tags.Some?
  }

  /** The cell the partial record writes into column `c` (`Null` when it has no such key). */
  function ChangeCell(ch: Changes, c: Column): Cell {
    match c
    case IdCol => OptText(ch.id)
    case TitleCol => OptText(ch.title)
    case DescriptionCol => OptText(ch.description)
    case StatusCol => OptText(ch.status)
    case PriorityCol => OptText(ch.priority)
    case CategoryCol => OptText(ch.category)
    case ForWhomCol => OptText(ch.forWhom)
    case DueDateCol => OptText(ch.dueDate)
    case CreatedAtCol => OptText(ch.createdAt)
    case UpdatedAtCol => OptText(ch.updatedAt)
    case AssigneeCol => OptText(ch.assignee)
    case TagsCol => if ch.tags.Some? then TextList(ch.tags.value) else Null
  }

  /** The schema's CHECK constraints on the enumeration columns the partial record writes. */
  predicate ChecksPass(ch: Changes) {
    && (ch.status.Some? ==> ParseStatus(ch.status.value).Some?)
    && (ch.priority.Some? ==> ParsePriority(ch.priority.value).Some?)
    && (ch.category.Some? ==> ParseCategory(ch.category.value).Some?)
  }

  /** The keys `update` turns into `SET` assignments: every supplied key except `id`. */
  function Settable(ch: Changes): Column -> bool {
    c => c != IdCol && Supplied(ch, c)
  }

  /** The `SET` list of the statement `update` builds. */
  function SetClause(ch: Changes): seq<Column> {
    Filter(AllColumns, Settable(ch))
  }

  /** One `col = ?` assignment applied to a row; `id` is never assigned. */
  function SetColumn(row: ActionItem, ch: Changes, c: Column): (r: ActionItem)
    requires ChecksPass(ch)
    ensures forall d :: CellOf(r, d) == if d == c && Settable(ch)(c) then ChangeCell(ch, c) else CellOf(row, d)
  {
    if !Supplied(ch, c) then row
    else
      match c
      case IdCol => row
      case TitleCol => row.(title := ch.title.value)
      case DescriptionCol => row.(description := ch.description)
      case StatusCol => row.(status := ParseStatus(ch.status.value).value)
      case PriorityCol => row.(priority := ParsePriority(ch.priority.value).value)
      case CategoryCol => row.(category := ParseCategory(ch.category.value).value)
      case ForWhomCol => row.(forWhom := ch.forWhom)
      case DueDateCol => row.(dueDate := ch.dueDate)
      case CreatedAtCol => row.(createdAt := ch.createdAt.value)
      case UpdatedAtCol => row.(updatedAt := ch.updatedAt.value)
      case AssigneeCol => row.(assignee := ch.assignee)
      case TagsCol => row.(tags := ch.tags)
  }

  /** A whole `SET` list applied to a row, left to right. */
  function SetColumns(row: ActionItem, ch: Changes, cols: seq<Column>): (r: ActionItem)
    requires ChecksPass(ch)
    ensures r.id == row.id
    decreases |cols|
  {
    if cols == [] then row
    else
      var next := SetColumn(row, ch, cols[0]);
      assert CellOf(next, IdCol) == CellOf(row, IdCol);
      SetColumns(next, ch, cols[1..])
  }

  lemma {:induction false} SetColumnsCell(row: ActionItem, ch: Changes, cols: seq<Column>, d: Column)
    requires ChecksPass(ch)
    requires forall c :: c in cols ==> Settable(ch)(c)
    ensures CellOf(SetColumns(row, ch, cols), d) == if d in cols then ChangeCell(ch, d) else CellOf(row, d)
    decreases |cols|
  {
    if cols != [] {
      var next := SetColumn(row, ch, cols[0]);
      assert forall c :: c in cols[1..] ==> c in cols;
      SetColumnsCell(next, ch, cols[1..], d);
      assert d in cols <==> d == cols[0] || d in cols[1..];
    }
  }

  /**
   * What `update` does to the row it addresses: every supplied key except
   * `id` is overwritten with the supplied value, and every other column
   * keeps its value.
   */
  lemma UpdateRowCells(row: ActionItem, ch: Changes, d: Column)
    requires ChecksPass(ch)
    ensures CellOf(SetColumns(row, ch, SetClause(ch)), d)
         == if d != IdCol && Supplied(ch, d) then ChangeCell(ch, d) else CellOf(row, d)
  {
    AllColumnsComplete(d);
    SetColumnsCell(row, ch, SetClause(ch), d);
  }

  /** The row `update` leaves behind, field by field. */
  function UpdatedFields(row: ActionItem, ch: Changes): ActionItem
    requires ChecksPass(ch)
  {
    row.(
      title := if ch.title.Some? then ch.title.value else row.title,
      description := if ch.description.Some? then ch.description else row.description,
      status := if ch.status.Some? then ParseStatus(ch.status.value).value else row.status,
      priority := if ch.priority.Some? then ParsePriority(ch.priority.value).value else row.priority,
      category := if ch.category.Some? then ParseCategory(ch.category.value).value else row.category,
      forWhom := if ch.forWhom.Some? then ch.forWhom else row.forWhom,
      dueDate := if ch.dueDate.Some? then ch.dueDate else row.dueDate,
      createdAt := if ch.createdAt.Some? then ch.createdAt.value else row.createdAt,
      updatedAt := if ch.updatedAt.Some? then ch.updatedAt.value else row.updatedAt,
      assignee := if ch.assignee.Some? then ch.assignee else row.assignee,
      tags := if ch.tags.Some? then ch.tags else row.tags)
  }

  /** Applying the `SET` list overwrites exactly the supplied fields other than `id`. */
  lemma UpdateIsFieldwise(row: ActionItem, ch: Changes)
    requires ChecksPass(ch)
    ensures SetColumns(row, ch, SetClause(ch)) == UpdatedFields(row, ch)
  {
    var after := SetColumns(row, ch, SetClause(ch));
    forall d ensures CellOf(after, d) == if d != IdCol && Supplied(ch, d) then ChangeCell(ch, d) else CellOf(row, d) {
      UpdateRowCells(row, ch, d);
    }
    FieldsFromCells(row, ch, after);
  }

  /** A row whose cells are those an update writes is the field-wise updated row. */
  lemma FieldsFromCells(row: ActionItem, ch: Changes, r: ActionItem)
    requires ChecksPass(ch) && r.id == row.id
    requires forall d :: CellOf(r, d) == if d != IdCol && Supplied(ch, d) then ChangeCell(ch, d) else CellOf(row, d)
    ensures r == UpdatedFields(row, ch)
  {
    RequiredFieldsFromCells(row, ch, r);
    OptionalFieldsFromCells(row, ch, r);
  }

  /** The text and enumeration fields of a row whose cells are those an update writes. */
  lemma RequiredFieldsFromCells(row: ActionItem, ch: Changes, r: ActionItem)
    requires ChecksPass(ch)
    requires forall d :: CellOf(r, d) == if d != IdCol && Supplied(ch, d) then ChangeCell(ch, d) else CellOf(row, d)
    ensures r.title == UpdatedFields(row, ch).title && r.status == UpdatedFields(row, ch).status && r.priority == UpdatedFields(row, ch).priority
    ensures r.category == UpdatedFields(row, ch).category && r.createdAt == UpdatedFields(row, ch).createdAt && r.updatedAt == UpdatedFields(row, ch).updatedAt
  {
    assert r.title == UpdatedFields(row, ch).title by {
      assert CellOf(r, TitleCol) == Text(if ch.title.Some? then ch.title.value else row.title);
    }
    assert r.createdAt == UpdatedFields(row, ch).createdAt by {
      assert CellOf(r, CreatedAtCol) == Text(if ch.createdAt.Some? then ch.createdAt.value else row.createdAt);
    }
    assert r.updatedAt == UpdatedFields(row, ch).updatedAt by {
      assert CellOf(r, UpdatedAtCol) == Text(if ch.updatedAt.Some? then ch.updatedAt.value else row.updatedAt);
    }
    assert r.status == UpdatedFields(row, ch).status by {
      assert CellOf(r, StatusCol) == Text(if ch.status.Some? then ch.status.value else StatusName(row.status));
      NamesRoundTrip(r.status, row.priority, row.category);
    }
    assert r.priority == UpdatedFields(row, ch).priority by {
      assert CellOf(r, PriorityCol) == Text(if ch.priority.Some? then ch.priority.value else PriorityName(row.priority));
      NamesRoundTrip(row.status, r.priority, row.category);
    }
    assert r.category == UpdatedFields(row, ch).category by {
      assert CellOf(r, CategoryCol) == Text(if ch.category.Some? then ch.category.value else CategoryName(row.category));
      NamesRoundTrip(row.status, row.priority, r.category);
    }
  }

  /** The nullable fields of a row whose cells are those an update writes. */
  lemma OptionalFieldsFromCells(row: ActionItem, ch: Changes, r: ActionItem)
    requires ChecksPass(ch)
    requires forall d :: CellOf(r, d) == if d != IdCol && Supplied(ch, d) then ChangeCell(ch, d) else CellOf(row, d)
    ensures r.description == UpdatedFields(row, ch).description && r.forWhom == UpdatedFields(row, ch).forWhom && r.dueDate == UpdatedFields(row, ch).dueDate
    ensures r.assignee == UpdatedFields(row, ch).assignee && r.tags == UpdatedFields(row, ch).tags
  {
    assert r.description == UpdatedFields(row, ch).description by {
      assert CellOf(r, DescriptionCol) == OptText(if ch.description.Some? then ch.description else row.description);
      OptTextInjective(r.description, if ch.description.Some? then ch.description else row.description);
    }
    assert r.forWhom == UpdatedFields(row, ch).forWhom by {
      assert CellOf(r, ForWhomCol) == OptText(if ch.forWhom.Some? then ch.forWhom else row.forWhom);
      OptTextInjective(r.forWhom, if ch.forWhom.Some? then ch.forWhom else row.forWhom);
    }
    assert r.dueDate == UpdatedFields(row, ch).dueDate by {
      assert CellOf(r, DueDateCol) == OptText(if ch.dueDate.Some? then ch.dueDate else row.dueDate);
      OptTextInjective(r.dueDate, if ch.dueDate.Some? then ch.dueDate else row.dueDate);
    }
    assert r.assignee == UpdatedFields(row, ch).assignee by {
      assert CellOf(r, AssigneeCol) == OptText(if ch.assignee.Some? then ch.assignee else row.assignee);
      OptTextInjective(r.assignee, if ch.assignee.Some? then ch.assignee else row.assignee);
    }
    assert r.tags == UpdatedFields(row, ch).tags by {
      assert CellOf(r, TagsCol) == CellOf(row.(tags := if ch.tags.Some? then ch.tags else row.tags), TagsCol);
    }
  }

  lemma OptTextInjective(a: Option<string>, b: Option<string>)
    requires OptText(a) == OptText(b)
    ensures a == b
  {
  }

  // ---------------------------------------------------------------------
  // Inserting
  // ---------------------------------------------------------------------

  /** `item.category || 'personal'`. */
  function CategoryOrDefault(c: Option<string>): (r: string)
    ensures c.Some? && c.value != "" ==> r == c.value
    ensures c.None? || c.value == "" ==> r == "personal"
  {
    if c.Some? && c.value != "" then c.value else "personal"
  }

  /** The schema's NOT NULL and CHECK constraints on a new row. */
  predicate Insertable(d: Draft) {
    && d.title.Some?
    && ParseStatus(d.status).Some?
    && ParsePriority(d.priority).Some?
    && ParseCategory(CategoryOrDefault(d.category)).Some?
  }

  /** The row `create` inserts, when the draft satisfies the schema. */
  function RowOf(d: Draft): (r: ActionItem)
    requires Insertable(d)
    ensures r.id == d.id && Some(r.title) == d.title && r.description == d.description
    ensures StatusName(r.status) == d.status && PriorityName(r.priority) == d.priority
    ensures CategoryName(r.category) == CategoryOrDefault(d.category)
    ensures r.forWhom == d.forWhom && r.dueDate == d.dueDate && r.assignee == d.assignee
    ensures r.createdAt == d.createdAt && r.updatedAt == d.updatedAt && r.tags == d.tags
  {
    ActionItem(d.id, d.title.value, d.description, ParseStatus(d.status).value,
               ParsePriority(d.priority).value, ParseCategory(CategoryOrDefault(d.category)).value,
               d.forWhom, d.dueDate, d.createdAt, d.updatedAt, d.assignee, d.tags)
  }

  // ---------------------------------------------------------------------
  // Reading
  // ---------------------------------------------------------------------

  /** A row as the store returns it: a NULL tags column reads back as the empty list. */
  function Decode(row: ActionItem): (item: ActionItem)
    ensures item.tags.Some?
    ensures row.tags.Some? ==> item.tags == row.tags
    ensures row.tags.None? ==> item.tags == Some([])
    ensures item.(tags := row.tags) == row
  {
    row.(tags := Some(row.tags.GetOr([])))
  }

  function DecodeAll(rows: seq<ActionItem>): (items: seq<ActionItem>)
    ensures |items| == |rows|
    ensures forall i :: 0 <= i < |rows| ==> items[i] == Decode(rows[i])
  {
    seq(|rows|, i requires 0 <= i < |rows| => Decode(rows[i]))
  }

  lemma DecodeAllConcat(a: seq<ActionItem>, b: seq<ActionItem>)
    ensures DecodeAll(a + b) == DecodeAll(a) + DecodeAll(b)
  {
  }

  /** Decoding only touches the tags, so it commutes with a filter that ignores them. */
  lemma {:induction false} DecodeAllFilter(rows: seq<ActionItem>, p: ActionItem -> bool)
    requires forall r :: p(Decode(r)) == p(r)
    ensures DecodeAll(Filter(rows, p)) == Filter(DecodeAll(rows), p)
  {
    if rows != [] {
      var d := DecodeAll(rows);
      var tail := Filter(rows[1..], p);
      DecodeAllFilter(rows[1..], p);
      assert d[1..] == DecodeAll(rows[1..]);
      assert d[0] == Decode(rows[0]);
      assert p(d[0]) == p(rows[0]);
      if p(rows[0]) {
        assert Filter(rows, p) == [rows[0]] + tail;
        DecodeAllConcat([rows[0]], tail);
        assert DecodeAll([rows[0]]) == [d[0]];
      } else {
        assert Filter(rows, p) == tail;
      }
    }
  }

  predicate HasId(rows: seq<ActionItem>, id: string) {
    exists i :: 0 <= i < |rows| && rows[i].id == id
  }

  /** The PRIMARY KEY constraint: no two rows share an id. */
  predicate UniqueIds(rows: seq<ActionItem>) {
    forall i, j :: 0 <= i < j < |rows| ==> rows[i].id != rows[j].id
  }

  /** The row with the given id, if any. */
  function FindById(rows: seq<ActionItem>, id: string): (r: Option<ActionItem>)
    ensures r.None? <==> !HasId(rows, id)
    ensures r.Some? ==> r.value in rows && r.value.id == id
  {
    if rows == [] then None
    else if rows[0].id == id then Some(rows[0])
    else
      assert forall i :: 1 <= i < |rows| ==> rows[i] == rows[1..][i - 1];
      FindById(rows[1..], id)
  }

  /** With unique ids, the row found is the only row carrying that id. */
  lemma FindByIdUnique(rows: seq<ActionItem>, id: string, k: nat)
    requires UniqueIds(rows) && k < |rows| && rows[k].id == id
    ensures FindById(rows, id) == Some(rows[k])
  {
    var r := FindById(rows, id);
    var j :| 0 <= j < |rows| && rows[j] == r.value;
    assert rows[j].id == id;
    assert j == k;
  }

  // ---------------------------------------------------------------------
  // Ordering by creation time, newest first (`ORDER BY created_at DESC`)
  // ---------------------------------------------------------------------

  predicate NewestFirst(s: seq<ActionItem>) {
    forall i, j :: 0 <= i < j < |s| ==> StrAtMost(s[j].createdAt, s[i].createdAt)
  }

  function InsertByCreated(x: ActionItem, s: seq<ActionItem>): (r: seq<ActionItem>)
    ensures forall y :: y in r <==> y == x || y in s
  {
    if s == [] then [x]
    else if StrAtMost(s[0].createdAt, x.createdAt) then [x] + s
    else [s[0]] + InsertByCreated(x, s[1..])
  }

  /** Inserting adds one copy of `x` and keeps every other row. */
  lemma {:induction false} InsertByCreatedPermutes(x: ActionItem, s: seq<ActionItem>)
    ensures multiset(InsertByCreated(x, s)) == multiset(s) + multiset{x}
  {
    if s != [] && !StrAtMost(s[0].createdAt, x.createdAt) {
      InsertByCreatedPermutes(x, s[1..]);
      assert s == [s[0]] + s[1..];
    }
  }

  lemma {:induction false} InsertByCreatedSorted(x: ActionItem, s: seq<ActionItem>)
    requires NewestFirst(s)
    ensures NewestFirst(InsertByCreated(x, s))
  {
    if s == [] {
    } else if StrAtMost(s[0].createdAt, x.createdAt) {
      forall y | y in s ensures StrAtMost(y.createdAt, x.createdAt) {
        var k :| 0 <= k < |s| && s[k] == y;
        if k > 0 { StrAtMostTransitive(y.createdAt, s[0].createdAt, x.createdAt); }
      }
      NewestFirstCons(x, s);
    } else {
      var rest := InsertByCreated(x, s[1..]);
      NewestFirstTail(s);
      InsertByCreatedSorted(x, s[1..]);
      StrLessAsymmetric(x.createdAt, s[0].createdAt);
      forall y | y in rest ensures StrAtMost(y.createdAt, s[0].createdAt) {
        if y != x {
          var k :| 0 <= k < |s[1..]| && s[1..][k] == y;
          assert s[k + 1] == y;
        }
      }
      NewestFirstCons(s[0], rest);
    }
  }

  /** Dropping the newest row keeps the rest newest first. */
  lemma NewestFirstTail(s: seq<ActionItem>)
    requires NewestFirst(s) && s != []
    ensures NewestFirst(s[1..])
  {
    forall i, j | 0 <= i < j < |s[1..]| ensures StrAtMost(s[1..][j].createdAt, s[1..][i].createdAt) {
      assert s[1..][i] == s[i + 1] && s[1..][j] == s[j + 1];
    }
  }

  /** A row no older than any row after it can be put in front of a newest-first list. */
  lemma NewestFirstCons(x: ActionItem, s: seq<ActionItem>)
    requires NewestFirst(s)
    requires forall y :: y in s ==> StrAtMost(y.createdAt, x.createdAt)
    ensures NewestFirst([x] + s)
  {
    var r := [x] + s;
    forall i, j | 0 <= i < j < |r| ensures StrAtMost(r[j].createdAt, r[i].createdAt) {
      assert r[j] == s[j - 1];
      if i > 0 {
        assert r[i] == s[i - 1];
      }
    }
  }

  /** Narrowing a newest-first list keeps it newest first. */
  lemma {:induction false} FilterNewestFirst(s: seq<ActionItem>, p: ActionItem -> bool)
    requires NewestFirst(s)
    ensures NewestFirst(Filter(s, p))
  {
    if s != [] {
      var rest := Filter(s[1..], p);
      NewestFirstTail(s);
      FilterNewestFirst(s[1..], p);
      if p(s[0]) {
        forall y | y in rest ensures StrAtMost(y.createdAt, s[0].createdAt) {
          var k :| 0 <= k < |s[1..]| && s[1..][k] == y;
          assert s[k + 1] == y;
        }
        NewestFirstCons(s[0], rest);
        assert Filter(s, p) == [s[0]] + rest;
      } else {
        assert Filter(s, p) == rest;
      }
    }
  }

  /** The rows sorted newest first; ties among equal creation times are in some fixed order. */
  function OrderByCreatedDesc(s: seq<ActionItem>): (r: seq<ActionItem>)
    ensures multiset(r) == multiset(s)
    ensures NewestFirst(r)
  {
    if s == [] then []
    else
      var rest := OrderByCreatedDesc(s[1..]);
      InsertFirstByCreated(s, rest);
      InsertByCreated(s[0], rest)
  }

  /** Sorting keeps exactly the rows it was given. */
  lemma OrderByCreatedMembers(s: seq<ActionItem>)
    ensures forall x :: x in OrderByCreatedDesc(s) <==> x in s
  {
    var r := OrderByCreatedDesc(s);
    forall x ensures x in r <==> x in s {
      assert x in r <==> x in multiset(r);
      assert x in s <==> x in multiset(s);
    }
  }

  /** Inserting the first row into the sorted rest sorts the whole list. */
  lemma InsertFirstByCreated(s: seq<ActionItem>, rest: seq<ActionItem>)
    requires s != [] && multiset(rest) == multiset(s[1..]) && NewestFirst(rest)
    ensures multiset(InsertByCreated(s[0], rest)) == multiset(s)
    ensures NewestFirst(InsertByCreated(s[0], rest))
  {
    InsertByCreatedSorted(s[0], rest);
    InsertByCreatedPermutes(s[0], rest);
    assert s == [s[0]] + s[1..];
  }

  /** Inserting and then narrowing is narrowing and then inserting, if the row passes. */
  lemma {:induction false} FilterInsertByCreated(x: ActionItem, t: seq<ActionItem>, p: ActionItem -> bool)
    requires NewestFirst(t)
    ensures Filter(InsertByCreated(x, t), p)
         == if p(x) then InsertByCreated(x, Filter(t, p)) else Filter(t, p)
  {
    if t == [] {
    } else if StrAtMost(t[0].createdAt, x.createdAt) {
      assert Filter([x] + t, p) == if p(x) then [x] + Filter(t, p) else Filter(t, p) by {
        assert ([x] + t)[1..] == t;
      }
      var f := Filter(t, p);
      if f != [] {
        assert f[0] in t;
        var k :| 0 <= k < |t| && t[k] == f[0];
        if k > 0 {
          StrAtMostTransitive(f[0].createdAt, t[0].createdAt, x.createdAt);
        }
      }
    } else {
      var rest := InsertByCreated(x, t[1..]);
      NewestFirstTail(t);
      FilterInsertByCreated(x, t[1..], p);
      assert ([t[0]] + rest)[1..] == rest;
      assert t == [t[0]] + t[1..];
    }
  }

  /**
   * Sorting newest first commutes with narrowing: the sort is stable, so
   * the rows a narrowing keeps stay in the same relative order.
   */
  lemma {:induction false} SortFilterCommute(s: seq<ActionItem>, p: ActionItem -> bool)
    ensures OrderByCreatedDesc(Filter(s, p)) == Filter(OrderByCreatedDesc(s), p)
  {
    if s != [] {
      var rest := Filter(s[1..], p);
      SortFilterCommute(s[1..], p);
      FilterInsertByCreated(s[0], OrderByCreatedDesc(s[1..]), p);
      if p(s[0]) {
        assert Filter(s, p) == [s[0]] + rest;
        assert ([s[0]] + rest)[1..] == rest;
      } else {
        assert Filter(s, p) == rest;
      }
    }
  }

  // ---------------------------------------------------------------------
  // Searching
  // ---------------------------------------------------------------------

  /** `text LIKE '%q%'` taken as a substring test that ignores ASCII case. */
  predicate LikeContains(text: string, q: string) {
    Contains(Lower(text), Lower(q))
  }

  /** The search condition: the title, description or assignee contains the query. */
  predicate SearchMatches(row: ActionItem, q: string) {
    || LikeContains(row.title, q)
    || (row.description.Some? && LikeContains(row.description.value, q))
    || (row.assignee.Some? && LikeContains(row.assignee.value, q))
  }

  function Matching(q: string): ActionItem -> bool {
    (row: ActionItem) => SearchMatches(row, q)
  }

  function InCategory(c: Category): ActionItem -> bool {
    (row: ActionItem) => row.category == c
  }

  function IdIsNot(id: string): ActionItem -> bool {
    (row: ActionItem) => row.id != id
  }

  /**
   * The loop of `update` that collects the `SET` list: the keys in turn,
   * skipping `id` and the keys the payload leaves out.
   */
  method SetList(ch: Changes, cols: seq<Column>) returns (fields: seq<Column>)
    ensures fields == Filter(cols, Settable(ch))
  {
    fields := [];
    var i := 0;
    while i < |cols|
      invariant 0 <= i <= |cols|
      invariant fields == Filter(cols[..i], Settable(ch))
    {
      var c := cols[i];
      FilterSnoc(cols[..i], c, Settable(ch));
      assert cols[..i + 1] == cols[..i] + [c];
      if c != IdCol && Supplied(ch, c) {
        fields := fields + [c];
      }
      i := i + 1;
    }
    assert cols[..i] == cols;
  }

  /** Rows after `update` addressed to `id`. */
  function UpdatedRows(rows: seq<ActionItem>, id: string, ch: Changes): (r: seq<ActionItem>)
    requires ChecksPass(ch)
    ensures |r| == |rows|
    ensures forall i :: 0 <= i < |rows| ==> r[i].id == rows[i].id
  {
    seq(|rows|, i requires 0 <= i < |rows| =>
      if rows[i].id == id then SetColumns(rows[i], ch, SetClause(ch)) else rows[i])
  }

  /** The `action_items` table and the statements the application runs on it. */
  class Database {
    var rows: seq<ActionItem>

    ghost predicate Valid()
      reads this
    {
      UniqueIds(rows)
    }

    /** A fresh, empty table. */
    constructor ()
      ensures Valid() && rows == []
    {
      rows := [];
    }

    /** `getAll`: every row, newest first, with tags decoded. */
    method GetAll() returns (items: seq<ActionItem>)
      ensures NewestFirst(items)
      ensures multiset(items) == multiset(DecodeAll(rows))
      ensures items == OrderByCreatedDesc(DecodeAll(rows))
    {
      items := OrderByCreatedDesc(DecodeAll(rows));
    }

    /** `getById`: the row with that id, or nothing. */
    method GetById(id: string) returns (item: Option<ActionItem>)
      ensures item.None? <==> !HasId(rows, id)
      ensures item.Some? ==> item.value.id == id && item.value in DecodeAll(rows)
      ensures item.Some? ==> item.value == Decode(FindById(rows, id).value)
    {
      var found := FindById(rows, id);
      if found.None? {
        item := None;
      } else {
        item := Some(Decode(found.value));
        var k :| 0 <= k < |rows| && rows[k] == found.value;
        assert DecodeAll(rows)[k] == item.value;
      }
    }

    /**
     * `create`: inserts the row, or fails when the draft breaks a NOT NULL
     * or CHECK constraint or reuses an existing id.
     */
    method Create(d: Draft) returns (ok: bool)
      requires Valid()
      modifies this
      ensures Valid()
      ensures ok <==> Insertable(d) && !HasId(old(rows), d.id)
      ensures ok ==> rows == old(rows) + [RowOf(d)]
      ensures !ok ==> rows == old(rows)
    {
      if !Insertable(d) || FindById(rows, d.id).Some? {
        ok := false;
        return;
      }
      rows := rows + [RowOf(d)];
      ok := true;
    }

    /**
     * `update`: builds the `SET` list from every supplied key except `id`,
     * then runs the statement. An empty `SET` list is a syntax error and a
     * key that names no column is an unknown column; either fails before
     * any row is touched. SQLite checks the CHECK constraints only on the
     * row it rewrites, so a value outside an allow-list fails the statement
     * only when a row has that id. An unknown id otherwise changes nothing
     * and is not an error.
     */
    method Update(id: string, ch: Changes) returns (ok: bool)
      requires Valid()
      modifies this
      ensures Valid()
      ensures ok <==> SetClause(ch) != [] && ch.unknownKeys == [] && (ChecksPass(ch) || !HasId(old(rows), id))
      ensures ok && HasId(old(rows), id) ==> rows == UpdatedRows(old(rows), id, ch)
      ensures !(ok && HasId(old(rows), id)) ==> rows == old(rows)
    {
      var fields := SetList(ch, AllColumns);
      if fields == [] || ch.unknownKeys != [] {
        ok := false;
        return;
      }
      var found := FindById(rows, id);
      if found.None? {
        ok := true;
        return;
      }
      if !ChecksPass(ch) {
        ok := false;
        return;
      }
      var before := rows;
      rows := UpdatedRows(rows, id, ch);
      assert forall k :: 0 <= k < |rows| ==> rows[k].id == before[k].id;
      ok := true;
    }

    /** `delete`: removes the row with that id, if there is one. */
    method Delete(id: string)
      requires Valid()
      modifies this
      ensures Valid()
      ensures rows == Filter(old(rows), IdIsNot(id))
      ensures !HasId(rows, id)
      ensures forall x :: x in rows <==> x in old(rows) && x.id != id
    {
      rows := Filter(rows, IdIsNot(id));
      FilterKeepsUnique(old(rows), IdIsNot(id));
    }

    /** `search`: the rows whose title, description or assignee contains the query, newest first. */
    method Search(q: string) returns (items: seq<ActionItem>)
      ensures NewestFirst(items)
      ensures forall x :: x in items <==> x in DecodeAll(rows) && SearchMatches(x, q)
      ensures items == OrderByCreatedDesc(Filter(DecodeAll(rows), Matching(q)))
    {
      items := OrderByCreatedDesc(Filter(DecodeAll(rows), Matching(q)));
      OrderByCreatedMembers(Filter(DecodeAll(rows), Matching(q)));
    }

    /** `getByCategory`: the rows of that category, newest first. */
    method GetByCategory(c: Category) returns (items: seq<ActionItem>)
      ensures NewestFirst(items)
      ensures forall x :: x in items <==> x in DecodeAll(rows) && x.category == c
      ensures items == OrderByCreatedDesc(Filter(DecodeAll(rows), InCategory(c)))
    {
      items := OrderByCreatedDesc(Filter(DecodeAll(rows), InCategory(c)));
      OrderByCreatedMembers(Filter(DecodeAll(rows), InCategory(c)));
    }
  }

  /** Dropping the first row keeps the ids unique. */
  lemma UniqueIdsTail(rows: seq<ActionItem>)
    requires rows != [] && UniqueIds(rows)
    ensures UniqueIds(rows[1..])
    ensures forall x :: x in rows[1..] ==> x.id != rows[0].id
  {
    forall a, b | 0 <= a < b < |rows[1..]| ensures rows[1..][a].id != rows[1..][b].id {
      assert rows[1..][a] == rows[a + 1] && rows[1..][b] == rows[b + 1];
    }
    forall x | x in rows[1..] ensures x.id != rows[0].id {
      var k :| 0 <= k < |rows[1..]| && rows[1..][k] == x;
      assert rows[k + 1] == x;
    }
  }

  /** A row whose id no other row has can be put in front. */
  lemma UniqueIdsCons(x: ActionItem, rest: seq<ActionItem>)
    requires UniqueIds(rest)
    requires forall y :: y in rest ==> y.id != x.id
    ensures UniqueIds([x] + rest)
  {
    var f := [x] + rest;
    forall i, j | 0 <= i < j < |f| ensures f[i].id != f[j].id {
      assert f[j] == rest[j - 1];
      if i > 0 {
        assert f[i] == rest[i - 1];
      }
    }
  }

  /** A filter of rows with unique ids still has unique ids. */
  lemma {:induction false} FilterKeepsUnique(rows: seq<ActionItem>, p: ActionItem -> bool)
    requires UniqueIds(rows)
    ensures UniqueIds(Filter(rows, p))
  {
    if rows != [] {
      UniqueIdsTail(rows);
      var rest := Filter(rows[1..], p);
      FilterKeepsUnique(rows[1..], p);
      if p(rows[0]) {
        assert Filter(rows, p) == [rows[0]] + rest;
        UniqueIdsCons(rows[0], rest);
      } else {
        assert Filter(rows, p) == rest;
      }
    }
  }

  // ---------------------------------------------------------------------
  // What the statements promise, stated against the row list
  // ---------------------------------------------------------------------

  /**
   * A row just inserted is the one `getById` finds for its id, and reads
   * back with the draft's tags, or the empty list when it had none.
   */
  lemma CreatedRowReadsBack(rows: seq<ActionItem>, d: Draft)
    requires UniqueIds(rows) && Insertable(d) && !HasId(rows, d.id)
    ensures UniqueIds(rows + [RowOf(d)])
    ensures FindById(rows + [RowOf(d)], d.id) == Some(RowOf(d))
    ensures Decode(RowOf(d)).tags == Some(d.tags.GetOr([]))
  {
    var r := rows + [RowOf(d)];
    forall i, j | 0 <= i < j < |r| ensures r[i].id != r[j].id {
      if j == |rows| {
        assert r[i] == rows[i];
      } else {
        assert r[i] == rows[i] && r[j] == rows[j];
      }
    }
    FindByIdUnique(r, d.id, |rows|);
  }

  /**
   * After `update`, the addressed row has each supplied key except `id`
   * overwritten and keeps every other column; rows with other ids are
   * untouched.
   */
  lemma UpdatedRowsCells(rows: seq<ActionItem>, id: string, ch: Changes, i: nat, d: Column)
    requires ChecksPass(ch) && i < |rows|
    ensures rows[i].id != id ==> UpdatedRows(rows, id, ch)[i] == rows[i]
    ensures rows[i].id == id ==>
      CellOf(UpdatedRows(rows, id, ch)[i], d)
        == if d != IdCol && Supplied(ch, d) then ChangeCell(ch, d) else CellOf(rows[i], d)
  {
    if rows[i].id == id {
      UpdateRowCells(rows[i], ch, d);
    }
  }

  /** The `SET` list is empty exactly when the payload supplies no key but `id`. */
  lemma SetClauseEmpty(ch: Changes)
    ensures SetClause(ch) == [] <==> forall c :: c != IdCol ==> !Supplied(ch, c)
  {
    if SetClause(ch) == [] {
      forall c | c != IdCol ensures !Supplied(ch, c) {
        AllColumnsComplete(c);
        assert c !in SetClause(ch);
      }
    } else {
      assert SetClause(ch)[0] in SetClause(ch);
    }
  }

  // ---------------------------------------------------------------------
  // The SET text
  // ---------------------------------------------------------------------

  /** The name of a column in the SQL text. */
  function ColumnName(c: Column): (r: string)
    ensures ',' !in r
  {
    match c
    case IdCol => "id"
    case TitleCol => "title"
    case DescriptionCol => "description"
    case StatusCol => "status"
    case PriorityCol => "priority"
    case CategoryCol => "category"
    case ForWhomCol => "for_whom"
    case DueDateCol => "due_date"
    case CreatedAtCol => "created_at"
    case UpdatedAtCol => "updated_at"
    case AssigneeCol => "assignee"
    case TagsCol => "tags"
  }

  function ColumnNames(cols: seq<Column>): (r: seq<string>)
    ensures |r| == |cols|
    ensures forall k :: 0 <= k < |r| ==> r[k] == ColumnName(cols[k])
  {
    seq(|cols|, k requires 0 <= k < |cols| => ColumnName(cols[k]))
  }

  /** `fields.join(', ')` over the assignments `${key} = ?`, one per key. */
  function SetText(keys: seq<string>): string
    decreases |keys|
  {
    if keys == [] then ""
    else if |keys| == 1 then keys[0] + " = ?"
    else keys[0] + " = ?, " + SetText(keys[1..])
  }

  /** The number of assignments in a `SET` text: its `,`-separated parts. */
  function AssignmentCount(text: string): nat {
    |Split(text, ',')|
  }

  /**
   * As written, a key is pasted into the SQL text unchecked: a key that is
   * itself `x = ?, y` gives the same `SET` text as the two keys `x` and
   * `y`, so one body key makes two assignments.
   */
  lemma KeyWithCommaSetText(x: string, y: string)
    requires ',' !in x && ',' !in y
    ensures SetText([x + " = ?, " + y]) == SetText([x, y])
    ensures AssignmentCount(SetText([x + " = ?, " + y])) == 2
  {
    var two := [x, y];
    assert two[1..] == [y];
    var t := SetText([x + " = ?, " + y]);
    assert t == x + " = ?, " + y + " = ?";
    var a, b := x + " = ?", " " + y + " = ?";
    assert ',' !in a && ',' !in b;
    assert t == a + [','] + b;
    SplitCons(a, ',', b);
    SplitNoSep(b, ',');
  }

  /** The body key `title = ?, status` makes two assignments, of `title` and `status`, in the `SET` text. */
  lemma KeySetTextInjects()
    ensures SetText(["title = ?, status"]) == SetText(["title", "status"])
    ensures AssignmentCount(SetText(["title = ?, status"])) == 2
  {
    KeyWithCommaSetText("title", "status");
    assert "title" + " = ?, " + "status" == "title = ?, status";
  }

  /**
   * With the keys taken from the table's columns, as the model's `update`
   * does, the `SET` text holds exactly one assignment per key.
   */
  lemma ColumnSetText(cols: seq<Column>)
    requires cols != []
    ensures AssignmentCount(SetText(ColumnNames(cols))) == |cols|
  {
    var keys := ColumnNames(cols);
    assert "" + SetText(keys) == SetText(keys);
    PrefixedSetText("", keys);
  }

  lemma {:induction false} PrefixedSetText(p: string, keys: seq<string>)
    requires keys != [] && ',' !in p
    requires forall k :: 0 <= k < |keys| ==> ',' !in keys[k]
    ensures |Split(p + SetText(keys), ',')| == |keys|
    decreases |keys|
  {
    var first := p + keys[0] + " = ?";
    assert ',' !in first;
    if |keys| == 1 {
      assert p + SetText(keys) == first;
      SplitNoSep(first, ',');
    } else {
      assert p + SetText(keys) == first + [','] + (" " + SetText(keys[1..]));
      SplitCons(first, ',', " " + SetText(keys[1..]));
      PrefixedSetText(" ", keys[1..]);
    }
  }
}
