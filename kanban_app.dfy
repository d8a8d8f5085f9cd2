/**
 * The client's top-level page: which parameters a fetch of the item list
 * sends, how the page state moves through a fetch, and the switch
 * between the board and the table. The server's answer to a fetch is a
 * parameter of the fetch.
 */
module KanbanApp {
  import opened Common
  import BackendModel
  import FrontendModel
  import ItemsApi
  import Store

  datatype View = KanbanView | TableView

  /** The category buttons: all items, or one category. */
  datatype CategoryFilter = AllItems | OnlyCategory(category: BackendModel.Category)

  function CategoryFilterName(c: CategoryFilter): string {
    match c
    case AllItems => "all"
    case OnlyCategory(cat) => BackendModel.CategoryName(cat)
  }

  /** The query parameters a fetch sends; an absent field is left out of the query string. */
  datatype Params = Params(search: Option<string>, category: Option<string>)

  /**
   * The parameters of `fetchItems`: `search` only for a non-empty search
   * term, `category` only when the filter is not `all`.
   */
  function FetchParams(searchTerm: string, filter: CategoryFilter): (r: Params)
    ensures r.search.Some? <==> searchTerm != ""
    ensures r.search.Some? ==> r.search.value == searchTerm
    ensures r.category.Some? <==> filter != AllItems
    ensures r.category.Some? ==> r.category.value == CategoryFilterName(filter)
  {
    Params(if searchTerm != "" then Some(searchTerm) else None,
           if filter != AllItems then Some(CategoryFilterName(filter)) else None)
  }

  /** The list request the server receives for those parameters. */
  function QueryOf(p: Params): (q: ItemsApi.Query)
    ensures q.search == p.search && q.category == p.category
    ensures q.status.None? && q.priority.None? && q.assignee.None?
  {
    ItemsApi.Query(None, None, None, p.search, p.category)
  }

  /** The category a filter selects on the server, when it selects one. */
  predicate InFilter(filter: CategoryFilter, x: BackendModel.ActionItem) {
    filter.AllItems? || x.category == filter.category
  }

  /**
   * What the page asks for is what it gets: with a search term, the
   * stored items matching it in the chosen category; without one, every
   * stored item of the chosen category; either way newest first.
   */
  lemma FetchSelects(searchTerm: string, filter: CategoryFilter, rows: seq<BackendModel.ActionItem>)
    ensures var answer := ItemsApi.ListResult(QueryOf(FetchParams(searchTerm, filter)), rows);
      Store.NewestFirst(answer)
      && forall x :: x in answer <==>
           x in Store.DecodeAll(rows) && InFilter(filter, x)
           && (searchTerm != "" ==> Store.SearchMatches(x, searchTerm))
  {
    var q := QueryOf(FetchParams(searchTerm, filter));
    ItemsApi.ListResultMeaning(q, rows);
    QueryCategoryOf(searchTerm, filter);
    forall x: BackendModel.ActionItem
      ensures ItemsApi.CategoryOk(q)(x) == InFilter(filter, x)
      ensures ItemsApi.Selected(q)(x) == InFilter(filter, x)
    {
      assert ItemsApi.StatusOk(q)(x) && ItemsApi.PriorityOk(q)(x) && ItemsApi.AssigneeOk(q)(x);
    }
  }

  /** The server reads the category filter back as the category it names, or none. */
  lemma QueryCategoryOf(searchTerm: string, filter: CategoryFilter)
    ensures ItemsApi.QueryCategory(QueryOf(FetchParams(searchTerm, filter)))
         == if filter.AllItems? then None else Some(filter.category)
  {
    if filter.OnlyCategory? {
      BackendModel.NamesRoundTrip(BackendModel.Todo, BackendModel.Medium, filter.category);
    }
  }

  /** What the server's answer to a fetch was. */
  datatype FetchOutcome = Loaded(data: seq<FrontendModel.FrontItem>) | Failed

  const FetchFailedMessage := "Failed to fetch action items"

  function OtherView(v: View): (r: View)
    ensures r != v
  {
    if v == KanbanView then TableView else KanbanView
  }

  /** Toggling twice returns to the view it started from. */
  lemma OtherViewTwice(v: View)
    ensures OtherView(OtherView(v)) == v
  {
  }

  /** The page's state. */
  class AppState {
    var items: seq<FrontendModel.FrontItem>
    var view: View
    var showCreateForm: bool
    var loading: bool
    var error: Option<string>
    var searchTerm: string
    var categoryFilter: CategoryFilter

    /** The page opens on the board, loading, with no items, no search and all categories. */
    constructor ()
      ensures items == [] && view == KanbanView && !showCreateForm && loading && error.None?
      ensures searchTerm == "" && categoryFilter == AllItems
    {
      items, view, showCreateForm, loading, error := [], KanbanView, false, true, None;
      searchTerm, categoryFilter := "", AllItems;
    }

    /** The board or the table is drawn only when nothing is loading and no error shows. */
    predicate ShowsItems()
      reads this
    {
      !loading && error.None?
    }

    /**
     * `fetchItems`: sends the parameters built from the search term and
     * the category filter; on success the items are replaced and the
     * error cleared, on failure the error message is set and the items
     * kept; loading ends either way.
     */
    method FetchItems(outcome: FetchOutcome) returns (params: Params)
      modifies this
      ensures params == FetchParams(old(searchTerm), old(categoryFilter))
      ensures !loading
      ensures outcome.Loaded? ==> items == outcome.data && error.None? && ShowsItems()
      ensures outcome.Failed? ==> items == old(items) && error == Some(FetchFailedMessage) && !ShowsItems()
      ensures view == old(view) && showCreateForm == old(showCreateForm)
      ensures searchTerm == old(searchTerm) && categoryFilter == old(categoryFilter)
    {
      loading := true;
      params := Params(None, None);
      if searchTerm != "" {
        params := params.(search := Some(searchTerm));
      }
      if categoryFilter != AllItems {
        params := params.(category := Some(CategoryFilterName(categoryFilter)));
      }
      match outcome {
        case Loaded(data) =>
          items := data;
          error := None;
        case Failed =>
          error := Some(FetchFailedMessage);
      }
      loading := false;
    }

    /** The view button: the board becomes the table and back. */
    method ToggleView()
      modifies this
      ensures view == OtherView(old(view))
      ensures items == old(items) && loading == old(loading) && error == old(error)
      ensures showCreateForm == old(showCreateForm)
      ensures searchTerm == old(searchTerm) && categoryFilter == old(categoryFilter)
    {
      view := if view == KanbanView then TableView else KanbanView;
    }
  }
}
