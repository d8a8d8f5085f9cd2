/**
 * The web client's view of an action item: a four-state status, the same
 * priorities as the backend, and no category or `for_whom` field.
 */
module FrontendModel {
  import opened Common
  import BackendModel

  /** The client's status set, wider than the backend's. */
  datatype FrontStatus = Todo | InProgress | Review | Done

  function FrontStatusName(s: FrontStatus): string {
    match s
    case Todo => "todo"
    case InProgress => "in_progress"
    case Review => "review"
    case Done => "done"
  }

  function ParseFrontStatus(s: string): (r: Option<FrontStatus>)
    ensures r.Some? <==> s == "todo" || s == "in_progress" || s == "review" || s == "done"
    ensures r.Some? ==> FrontStatusName(r.value) == s
  {
    if s == "todo" then Some(Todo)
    else if s == "in_progress" then Some(InProgress)
    else if s == "review" then Some(Review)
    else if s == "done" then Some(Done)
    else None
  }

  lemma FrontStatusRoundTrip(s: FrontStatus)
    ensures ParseFrontStatus(FrontStatusName(s)) == Some(s)
  {
  }

  /**
   * An action item as the client types it. `description` is declared as a
   * string, but the server sends `null` for an item created without one,
   * so the record keeps it optional.
   */
  datatype FrontItem = FrontItem(
    id: string,
    title: string,
    description: Option<string>,
    status: FrontStatus,
    priority: BackendModel.Priority,
    dueDate: Option<string>,
    createdAt: string,
    updatedAt: string,
    assignee: Option<string>,
    tags: Option<seq<string>>)

  /**
   * The backend status as the client reads it: the same text, so only
   * `todo` and `done` can arrive from the server.
   */
  function FromBackendStatus(s: BackendModel.Status): (r: FrontStatus)
    ensures FrontStatusName(r) == BackendModel.StatusName(s)
    ensures r == Todo || r == Done
  {
    match s
    case Todo => Todo
    case Done => Done
  }

  /**
   * A backend record as the client holds it once the JSON arrives: the
   * category and `for_whom` are still in the object but the client's type
   * does not declare them, so they are dropped here.
   */
  function FromBackend(item: BackendModel.ActionItem): (r: FrontItem)
    ensures r.id == item.id && r.title == item.title && r.description == item.description
    ensures FrontStatusName(r.status) == BackendModel.StatusName(item.status)
    ensures r.priority == item.priority && r.dueDate == item.dueDate
    ensures r.createdAt == item.createdAt && r.updatedAt == item.updatedAt
    ensures r.assignee == item.assignee && r.tags == item.tags
  {
    FrontItem(item.id, item.title, item.description, FromBackendStatus(item.status), item.priority,
              item.dueDate, item.createdAt, item.updatedAt, item.assignee, item.tags)
  }

  /** Items that come from the server are never `in_progress` or `review`. */
  lemma ServerItemsAreTodoOrDone(items: seq<BackendModel.ActionItem>)
    ensures forall i :: 0 <= i < |items| ==>
      FromBackend(items[i]).status != InProgress && FromBackend(items[i]).status != Review
  {
  }
}
