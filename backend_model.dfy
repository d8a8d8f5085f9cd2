/**
 * The backend's action-item record and its enumerations: a two-state
 * status, a priority, a category, and the create/update payload shapes
 * derived from the record.
 */
module BackendModel {
  import opened Common

  datatype Status = Todo | Done
  datatype Priority = Low | Medium | High
  datatype Category = Personal | Professional

  /** The text the record and the wire format use for a status. */
  function StatusName(s: Status): string {
    match s
    case Todo => "todo"
    case Done => "done"
  }

  function PriorityName(p: Priority): string {
    match p
    case Low => "low"
    case Medium => "medium"
    case High => "high"
  }

  function CategoryName(c: Category): string {
    match c
    case Personal => "personal"
    case Professional => "professional"
  }

  /** Reads a status from text; only the two allowed names are accepted. */
  function ParseStatus(s: string): (r: Option<Status>)
    ensures r.Some? <==> s == "todo" || s == "done"
    ensures r.Some? ==> StatusName(r.value) == s
  {
    if s == "todo" then Some(Todo)
    else if s == "done" then Some(Done)
    else None
  }

  function ParsePriority(s: string): (r: Option<Priority>)
    ensures r.Some? <==> s == "low" || s == "medium" || s == "high"
    ensures r.Some? ==> PriorityName(r.value) == s
  {
    if s == "low" then Some(Low)
    else if s == "medium" then Some(Medium)
    else if s == "high" then Some(High)
    else None
  }

  function ParseCategory(s: string): (r: Option<Category>)
    ensures r.Some? <==> s == "personal" || s == "professional"
    ensures r.Some? ==> CategoryName(r.value) == s
  {
    if s == "personal" then Some(Personal)
    else if s == "professional" then Some(Professional)
    else None
  }

  /** Every enumeration value survives being written out and read back. */
  lemma NamesRoundTrip(s: Status, p: Priority, c: Category)
    ensures ParseStatus(StatusName(s)) == Some(s)
    ensures ParsePriority(PriorityName(p)) == Some(p)
    ensures ParseCategory(CategoryName(c)) == Some(c)
  {
  }

  /**
   * An action item as the backend stores and returns it. `title`, the
   * three enumerations, `id` and both timestamps are always present;
   * `for_whom`, `due_date`, `assignee` and `tags` are optional.
   * `description` is declared as a required string, but its column is
   * nullable and a create without a description stores NULL, so the
   * record keeps it optional.
   */
  datatype ActionItem = ActionItem(
    id: string,
    title: string,
    description: Option<string>,
    status: Status,
    priority: Priority,
    category: Category,
    forWhom: Option<string>,
    dueDate: Option<string>,
    createdAt: string,
    updatedAt: string,
    assignee: Option<string>,
    tags: Option<seq<string>>)

  /** The create payload: the record without `id` and the two timestamps. */
  datatype CreateDto = CreateDto(
    title: string,
    description: string,
    status: Status,
    priority: Priority,
    category: Category,
    forWhom: Option<string>,
    dueDate: Option<string>,
    assignee: Option<string>,
    tags: Option<seq<string>>)

  /** The update payload: any subset of the create payload's fields. */
  datatype UpdateDto = UpdateDto(
    title: Option<string>,
    description: Option<string>,
    status: Option<Status>,
    priority: Option<Priority>,
    category: Option<Category>,
    forWhom: Option<string>,
    dueDate: Option<string>,
    assignee: Option<string>,
    tags: Option<seq<string>>)

  /** The record a create payload describes, once an id and a time are assigned. */
  function WithIdentity(d: CreateDto, id: string, now: string): ActionItem {
    ActionItem(id, d.title, Some(d.description), d.status, d.priority, d.category,
               d.forWhom, d.dueDate, now, now, d.assignee, d.tags)
  }
}
