/**
 * The automation server's tool calls: the category guess for a new item,
 * the argument checks of each tool and the HTTP request each call sends
 * to the items API, and how the answer, or a failure, becomes the tool's
 * result. The HTTP exchange itself is a parameter: the request is
 * computed here, and what came back is given.
 */
module McpServer {
  import opened Common
  import BackendModel

  /** A tool call's arguments, by name; every value is a string here. */
  type Args = map<string, string>

  /** `args?.key` is truthy: present and not the empty string. */
  predicate HasTruthy(args: Option<Args>, key: string) {
    args.Some? && key in args.value && args.value[key] != ""
  }

  /** `'key' in args`: present, whatever its value. */
  predicate HasKey(args: Option<Args>, key: string) {
    args.Some? && key in args.value
  }

  // ---------------------------------------------------------------------
  // The category guess of create_action_item
  // ---------------------------------------------------------------------

  const ProfessionalKeywords: seq<string> :=
    ["work", "project", "professional", "meeting", "client", "deadline", "business"]

  /** `` `${title || ''} ${description || ''}`.toLowerCase() ``: the text the guess reads. */
  function ClassifiedText(data: Args): string {
    var title := if "title" in data && data["title"] != "" then data["title"] else "";
    var description := if "description" in data && data["description"] != "" then data["description"] else "";
    Lower(title + " " + description)
  }

  /** `keywords.some(keyword => text.includes(keyword))`. */
  function AnyKeyword(text: string, keywords: seq<string>): (r: bool)
    ensures r <==> exists k :: 0 <= k < |keywords| && Contains(text, keywords[k])
    decreases |keywords|
  {
    if keywords == [] then false
    else Contains(text, keywords[0]) || AnyKeyword(text, keywords[1..])
  }

  /** The guessed category: `professional` when a keyword occurs in the text, `personal` otherwise. */
  function GuessCategory(data: Args): (r: string)
    ensures r == "professional" || r == "personal"
  {
    if AnyKeyword(ClassifiedText(data), ProfessionalKeywords) then "professional" else "personal"
  }

  /** The arguments with the guess applied: only when `category` is missing or empty. */
  function WithCategory(data: Args): (r: Args)
    ensures "category" in r && r["category"] != ""
    ensures "category" in data && data["category"] != "" ==> r == data
    ensures r.Keys == data.Keys + {"category"}
    ensures forall k :: k in data && k != "category" ==> r[k] == data[k]
  {
    if "category" in data && data["category"] != "" then data
    else data["category" := GuessCategory(data)]
  }

  /**
   * The guess is `professional` exactly when one of the seven keywords
   * occurs in the lower-cased title and description, joined by a space.
   */
  lemma GuessMeaning(data: Args)
    ensures GuessCategory(data) == "professional" <==>
      exists k :: 0 <= k < |ProfessionalKeywords| && Contains(ClassifiedText(data), ProfessionalKeywords[k])
  {
  }

  /** A keyword in the title, in any letter case, makes the item professional. */
  lemma KeywordInTitle(data: Args, k: nat)
    requires "title" in data && k < |ProfessionalKeywords|
    requires Contains(Lower(data["title"]), ProfessionalKeywords[k])
    ensures GuessCategory(data) == "professional"
  {
    var title := data["title"];
    var description := if "description" in data && data["description"] != "" then data["description"] else "";
    assert ProfessionalKeywords[k] != [];
    ContainsNonEmpty(Lower(title), ProfessionalKeywords[k]);
    LowerConcat(title, " " + description);
    assert title + " " + description == title + (" " + description);
    ContainsConcat(Lower(title), Lower(" " + description), ProfessionalKeywords[k]);
  }

  /** Whatever is guessed is a category the items API accepts. */
  lemma GuessIsCategory(data: Args)
    ensures BackendModel.ParseCategory(WithCategory(data)["category"]).Some?
            || ("category" in data && data["category"] != "" && WithCategory(data)["category"] == data["category"])
  {
  }

  /** The arguments object that `create_action_item` updates in place before posting it. */
  class ToolArguments {
    var fields: Args

    constructor (initial: Option<Args>)
      ensures fields == initial.GetOr(map[])
    {
      fields := initial.GetOr(map[]);
    }

    /** Sets `category` to the guess when it is missing or empty. */
    method AutoCategorize()
      modifies this
      ensures fields == WithCategory(old(fields))
    {
      if !("category" in fields && fields["category"] != "") {
        var text := Lower((if "title" in fields && fields["title"] != "" then fields["title"] else "")
                          + " " + (if "description" in fields && fields["description"] != "" then fields["description"] else ""));
        assert text == ClassifiedText(fields);
        if AnyKeyword(text, ProfessionalKeywords) {
          fields := fields["category" := "professional"];
        } else {
          fields := fields["category" := "personal"];
        }
      }
    }
  }

  // ---------------------------------------------------------------------
  // Requests
  // ---------------------------------------------------------------------

  const ItemsPath := "/api/action-items"

  /**
   * An HTTP request to the items API. A `Get` carries its path and the
   * query parameters that travel encoded, so that the server reads them
   * back as the same pairs.
   */
  datatype HttpRequest =
    | Get(path: string, query: seq<(string, string)>)
    | Post(path: string, body: Args)
    | Put(path: string, body: Args)
    | Patch(path: string, body: Args)
    | Delete(path: string)

  /** The filters `list_action_items` forwards, in this order. */
  const ListFilters: seq<string> := ["status", "priority", "category", "for_whom", "assignee", "search"]

  /** The query pairs for the truthy filters among `keys`, in the order of `keys`. */
  function ForwardedFilters(args: Option<Args>, keys: seq<string>): (r: seq<(string, string)>)
    ensures forall i :: 0 <= i < |r| ==> r[i].0 in keys && HasTruthy(args, r[i].0) && r[i].1 == args.value[r[i].0]
    ensures forall key :: key in keys && HasTruthy(args, key) ==> (key, args.value[key]) in r
    ensures |r| <= |keys|
    decreases |keys|
  {
    if keys == [] then []
    else
      var rest := ForwardedFilters(args, keys[1..]);
      if HasTruthy(args, keys[0]) then [(keys[0], args.value[keys[0]])] + rest else rest
  }

  /** `list_action_items`: a GET with the truthy filters as parameters. */
  function ListRequest(args: Option<Args>): HttpRequest {
    Get(ItemsPath, ForwardedFilters(args, ListFilters))
  }

  /** No arguments, or only empty ones, list every item. */
  lemma ListWithoutFilters(args: Option<Args>)
    requires forall key :: key in ListFilters ==> !HasTruthy(args, key)
    ensures ListRequest(args) == Get(ItemsPath, [])
  {
    ForwardedNone(args, ListFilters);
  }

  /** No truthy key among `keys`: nothing is forwarded. */
  lemma ForwardedNone(args: Option<Args>, keys: seq<string>)
    requires forall key :: key in keys ==> !HasTruthy(args, key)
    ensures ForwardedFilters(args, keys) == []
  {
  }

  /** Forwarding from `a + b` forwards from `a`, then from `b`. */
  lemma {:induction false} ForwardedConcat(args: Option<Args>, a: seq<string>, b: seq<string>)
    ensures ForwardedFilters(args, a + b) == ForwardedFilters(args, a) + ForwardedFilters(args, b)
    decreases |a|
  {
    if a != [] {
      ForwardedConcat(args, a[1..], b);
      assert (a + b)[0] == a[0] && (a + b)[1..] == a[1..] + b;
    } else {
      assert a + b == b;
    }
  }

  /** A filter the tool does not know, such as `tags`, is never forwarded. */
  lemma UnknownFiltersDropped(args: Option<Args>, key: string)
    requires key !in ListFilters
    ensures forall i :: 0 <= i < |ForwardedFilters(args, ListFilters)| ==> ForwardedFilters(args, ListFilters)[i].0 != key
  {
  }

  // ---------------------------------------------------------------------
  // search_action_items, as written and as intended
  // ---------------------------------------------------------------------

  /** One `key=value` part of a query string; a part without `=` is a key with an empty value. */
  function PairOf(part: string): (r: (string, string))
    ensures '=' !in r.0
    ensures '=' in part ==> part == r.0 + "=" + r.1
    ensures '=' !in part ==> r == (part, "")
  {
    var eq := IndexOf(part, '=');
    if eq < |part| then (part[..eq], part[eq + 1..])
    else
      assert part[..eq] == part;
      (part, "")
  }

  /** The query string after the first `?` of a path, as `key=value` pairs split on `&`. */
  function QueryPairs(qs: string): (r: seq<(string, string)>)
    ensures |r| == |Split(qs, '&')|
    ensures forall i :: 0 <= i < |r| ==> r[i] == PairOf(Split(qs, '&')[i])
  {
    var parts := Split(qs, '&');
    seq(|parts|, i requires 0 <= i < |parts| => PairOf(parts[i]))
  }

  /** The parameters the server reads from a GET: those in the path, then the encoded ones. */
  function ReceivedParams(req: HttpRequest): seq<(string, string)>
    requires req.Get?
  {
    var q := IndexOf(req.path, '?');
    (if q < |req.path| then QueryPairs(req.path[q + 1..]) else []) + req.query
  }

  /** A path without `?` carries no parameters of its own. */
  lemma ReceivedWithoutQuery(req: HttpRequest)
    requires req.Get? && '?' !in req.path
    ensures ReceivedParams(req) == req.query
  {
  }

  /** A path `a?qs` with no `?` in `a` carries the pairs of `qs`. */
  lemma ReceivedFromPath(a: string, qs: string)
    requires '?' !in a
    ensures ReceivedParams(Get(a + "?" + qs, [])) == QueryPairs(qs)
  {
    var path := a + "?" + qs;
    assert path[|a|] == '?' && path[..|a|] == a;
    assert path[|a| + 1..] == qs;
  }

  /** The first value of `key` among `pairs`. */
  function ParamValue(pairs: seq<(string, string)>, key: string): (r: Option<string>)
    ensures r.Some? ==> (key, r.value) in pairs
    ensures r.None? ==> forall i :: 0 <= i < |pairs| ==> pairs[i].0 != key
  {
    if pairs == [] then None
    else if pairs[0].0 == key then Some(pairs[0].1)
    else ParamValue(pairs[1..], key)
  }

  /** A part `key=value` whose key has no `=` splits back into that key and value. */
  lemma PairOfKey(key: string, value: string)
    requires '=' !in key
    ensures PairOf(key + "=" + value) == (key, value)
  {
    var part := key + "=" + value;
    assert part[|key|] == '=' && part[..|key|] == key;
    assert part[|key| + 1..] == value;
  }

  /** `search_action_items` as written: the query pasted into the path with no encoding. */
  function SearchRequestAsWritten(query: string): HttpRequest {
    Get(ItemsPath + "?search=" + query, [])
  }

  /** The server parses the text after `?` of the unencoded request. */
  lemma ReceivedAsWritten(query: string)
    ensures ReceivedParams(SearchRequestAsWritten(query)) == QueryPairs("search=" + query)
  {
    assert ItemsPath + "?search=" + query == ItemsPath + "?" + ("search=" + query);
    assert '?' !in ItemsPath;
    ReceivedFromPath(ItemsPath, "search=" + query);
  }

  /** In `search=a&b` with no `&` in `a`, the `search` parameter is `a`. */
  lemma SearchPairCut(a: string, b: string)
    requires '&' !in a
    ensures ParamValue(QueryPairs("search=" + (a + "&" + b)), "search") == Some(a)
  {
    var first := "search" + "=" + a;
    assert "search=" + (a + "&" + b) == first + ['&'] + b;
    assert '&' !in "search=";
    assert '&' !in first by {
      assert first == "search=" + a;
    }
    QueryPairsHead(first, b);
    PairOfKey("search", a);
  }

  /** The first pair of `first&rest` comes from `first` when it has no `&`. */
  lemma QueryPairsHead(first: string, rest: string)
    requires '&' !in first
    ensures QueryPairs(first + ['&'] + rest) != []
    ensures QueryPairs(first + ['&'] + rest)[0] == PairOf(first)
  {
    SplitCons(first, '&', rest);
  }

  /**
   * A query holding `&` reaches the server cut short: only the text before
   * it is searched. (The text before it is taken free of `+`, `%` and `#`,
   * which the server would decode or never receive.)
   */
  lemma SearchAsWrittenCutsAtAmpersand(a: string, b: string)
    requires '&' !in a && '+' !in a && '%' !in a && '#' !in a
    ensures ParamValue(ReceivedParams(SearchRequestAsWritten(a + "&" + b)), "search") == Some(a)
  {
    ReceivedAsWritten(a + "&" + b);
    SearchPairCut(a, b);
  }

  /** `R&D` is searched as `R`. */
  lemma SearchAsWrittenLosesText()
    ensures ParamValue(ReceivedParams(SearchRequestAsWritten("R&D")), "search") == Some("R")
  {
    assert "R&D" == "R" + "&" + "D";
    SearchAsWrittenCutsAtAmpersand("R", "D");
  }

  /** `search_action_items` with the query sent as an encoded parameter. */
  function SearchRequest(query: string): (r: HttpRequest)
    ensures r.Get? && r.path == ItemsPath
  {
    Get(ItemsPath, [("search", query)])
  }

  /** Whatever the query holds, the server reads it back whole as the search term. */
  lemma SearchArrivesWhole(query: string)
    ensures ParamValue(ReceivedParams(SearchRequest(query)), "search") == Some(query)
  {
    ReceivedWithoutQuery(SearchRequest(query));
  }

  /** Searching is listing with only a search term. */
  lemma SearchIsListing(query: string)
    requires query != ""
    ensures SearchRequest(query) == ListRequest(Some(map["search" := query]))
  {
    var args := Some(map["search" := query]);
    var head := ListFilters[..5];
    assert ListFilters == head + ["search"];
    ForwardedConcat(args, head, ["search"]);
    ForwardedNone(args, head);
    assert ForwardedFilters(args, ["search"]) == [("search", query)] by {
      assert ["search"][1..] == [];
    }
  }

  // ---------------------------------------------------------------------
  // The call handler
  // ---------------------------------------------------------------------

  /** What a call does before any answer: send a request, or fail with a message. */
  datatype Plan = Send(request: HttpRequest) | Reject(message: string)

  /**
   * The request a tool call sends, after its argument checks: each tool's
   * required arguments must be present (by key, whatever their value),
   * and an unknown tool name is rejected.
   */
  function PlanCall(name: string, args: Option<Args>): (r: Plan)
    ensures name == "update_action_item" || name == "delete_action_item" ==>
      (r.Reject? <==> !HasKey(args, "id"))
    ensures name == "change_status" ==> (r.Reject? <==> !HasKey(args, "id") || !HasKey(args, "status"))
    ensures name == "search_action_items" ==> (r.Reject? <==> !HasKey(args, "query"))
    ensures name == "create_action_item" ==> r == Send(Post(ItemsPath, WithCategory(args.GetOr(map[]))))
    ensures name == "list_action_items" ==> r == Send(ListRequest(args))
    ensures r.Reject? ==> r.message in {
      "Missing required parameter: id", "Missing required parameters: id and status",
      "Missing required parameter: query", "Unknown tool: " + name}
  {
    if name == "create_action_item" then
      Send(Post(ItemsPath, WithCategory(args.GetOr(map[]))))
    else if name == "list_action_items" then
      Send(ListRequest(args))
    else if name == "update_action_item" then
      if !HasKey(args, "id") then Reject("Missing required parameter: id")
      else Send(Put(ItemsPath + "/" + args.value["id"], args.value - {"id"}))
    else if name == "change_status" then
      if !HasKey(args, "id") || !HasKey(args, "status") then Reject("Missing required parameters: id and status")
      else Send(Patch(ItemsPath + "/" + args.value["id"] + "/status", map["status" := args.value["status"]]))
    else if name == "search_action_items" then
      if !HasKey(args, "query") then Reject("Missing required parameter: query")
      else Send(SearchRequest(args.value["query"]))
    else if name == "delete_action_item" then
      if !HasKey(args, "id") then Reject("Missing required parameter: id")
      else Send(Delete(ItemsPath + "/" + args.value["id"]))
    else Reject("Unknown tool: " + name)
  }

  /** The update sent for an item carries every argument but the id, which only names the item. */
  lemma UpdateStripsId(args: Args)
    requires "id" in args
    ensures var r := PlanCall("update_action_item", Some(args));
      r.Send? && r.request.Put? && r.request.path == ItemsPath + "/" + args["id"]
      && "id" !in r.request.body
      && forall k :: k in args && k != "id" ==> k in r.request.body && r.request.body[k] == args[k]
    ensures PlanCall("update_action_item", Some(args)).request.body == args - {"id"}
  {
  }

  /** A status change is a PATCH of the item's status path carrying the status and no other argument. */
  lemma ChangeStatusSendsStatus(args: Args)
    requires "id" in args && "status" in args
    ensures var r := PlanCall("change_status", Some(args));
      r.Send? && r.request.Patch? && r.request.path == ItemsPath + "/" + args["id"] + "/status"
      && r.request.body.Keys == {"status"} && r.request.body["status"] == args["status"]
  {
  }

  /** A deletion is a DELETE of the item's path, and the only argument it uses is the id. */
  lemma DeleteSendsItemPath(args: Args, other: Args)
    requires "id" in args && "id" in other && other["id"] == args["id"]
    ensures var r := PlanCall("delete_action_item", Some(args));
      r.Send? && r.request == Delete(ItemsPath + "/" + args["id"])
      && r == PlanCall("delete_action_item", Some(other))
  {
  }

  /** A search with a `query` argument is a GET of the items path from which the server reads that query whole. */
  lemma SearchSendsQuery(args: Args)
    requires "query" in args
    ensures var r := PlanCall("search_action_items", Some(args));
      r.Send? && r.request.Get? && r.request.path == ItemsPath
      && ParamValue(ReceivedParams(r.request), "search") == Some(args["query"])
  {
    assert PlanCall("search_action_items", Some(args)) == Send(SearchRequest(args["query"]));
    SearchArrivesWhole(args["query"]);
  }

  /** A new item is always posted with a category; one the caller gave is kept. */
  lemma CreateHasCategory(args: Option<Args>)
    ensures var r := PlanCall("create_action_item", args);
      r.Send? && r.request.Post? && "category" in r.request.body && r.request.body["category"] != ""
      && (HasTruthy(args, "category") ==> r.request.body == args.value)
  {
  }

  /** How the HTTP exchange ended. */
  datatype HttpOutcome =
    | Answered(json: string)                                      // `JSON.stringify(response.data, null, 2)`
    | Failed(serverError: Option<string>, message: string)         // `error.response?.data?.error`, `error.message`

  /** A tool's result: its text content and whether it reports an error. */
  datatype ToolResult = ToolResult(text: string, isError: bool)

  function ErrorResult(message: string): (r: ToolResult)
    ensures r.isError && r.text == "Error: " + message
  {
    ToolResult("Error: " + message, true)
  }

  /** The message of a failure: the server's `error`, else the exception's message, else a fixed text. */
  function FailureMessage(serverError: Option<string>, message: string): (r: string)
    ensures r != ""
    ensures serverError.Some? && serverError.value != "" ==> r == serverError.value
    ensures !(serverError.Some? && serverError.value != "") && message != "" ==> r == message
    ensures !(serverError.Some? && serverError.value != "") && message == "" ==> r == "Unknown error occurred"
  {
    if serverError.Some? && serverError.value != "" then serverError.value
    else if message != "" then message
    else "Unknown error occurred"
  }

  /**
   * The result of a call: a rejection or a failed exchange becomes an
   * error result; an answer is shown as JSON, except for a deletion,
   * which is confirmed by a sentence naming the id.
   */
  function CallResult(name: string, args: Option<Args>, outcome: HttpOutcome): (r: ToolResult)
    ensures PlanCall(name, args).Reject? ==> r == ErrorResult(PlanCall(name, args).message)
    ensures PlanCall(name, args).Send? && outcome.Failed? ==>
      r == ErrorResult(FailureMessage(outcome.serverError, outcome.message))
    ensures r.isError <==> PlanCall(name, args).Reject? || outcome.Failed?
    ensures PlanCall(name, args).Send? && outcome.Answered? ==>
      r == if name == "delete_action_item"
           then ToolResult("Action item " + args.value["id"] + " deleted successfully", false)
           else ToolResult(outcome.json, false)
  {
    var plan := PlanCall(name, args);
    if plan.Reject? then ErrorResult(plan.message)
    else if outcome.Failed? then ErrorResult(FailureMessage(outcome.serverError, outcome.message))
    else if name == "delete_action_item" then
      ToolResult("Action item " + args.value["id"] + " deleted successfully", false)
    else ToolResult(outcome.json, false)
  }

  /** An unknown tool is an error result naming the tool, whatever came back. */
  lemma UnknownToolIsError(name: string, args: Option<Args>, outcome: HttpOutcome)
    requires name !in {"create_action_item", "list_action_items", "update_action_item",
                       "change_status", "search_action_items", "delete_action_item"}
    ensures CallResult(name, args, outcome) == ToolResult("Error: Unknown tool: " + name, true)
  {
  }
}
