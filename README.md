# Action Kanban — a verified model of the action-item core

Action Kanban tracks "action items" (tasks). Each item has a status, a
priority, a category, optional people and dates, and a list of tags. This
project models in Dafny the rules that decide what happens to those items,
and proves what those rules promise. It covers these parts of the system:

- **The two item records** (`BackendModel`, `FrontendModel`).
  - The server's record has a two-state status (`todo`, `done`), a
    priority and a category.
  - The web client's record has a four-state status and no category.
  - The two are separate datatypes. `FrontendModel.FromBackend` is the
    client's reading of a server record.
- **The item store** (`Store`): the `action_items` table and its seven
  statements, written as a class `Database` over a sequence of rows.
  - It models the schema's PRIMARY KEY, NOT NULL and CHECK constraints.
  - Rows are listed newest first.
  - `update` builds its `SET` list with a loop.
  - A row with no tags reads back with an empty tag list.
- **The REST handlers** (`ItemsApi`):
  - the list pipeline, where a search term replaces the exact-match
    narrowings;
  - the defaults a create fills in;
  - the whole-record update;
  - the status and category patches with their allow-lists;
  - delete, with 404 for an unknown id.
- **The client's date helpers** (`DateUtils`):
  - `YYYY-MM-DD` read as a local date;
  - `MMM d` formatting;
  - the "strictly before today" overdue test.
- **The board** (`KanbanBoard`):
  - the three columns and which items each holds;
  - the in-place priority sort of a column, proved equal to the unique
    stable order high, medium, low;
  - what a drag-and-drop sends;
  - the tag chips on a card.
- **The table** (`TableView`):
  - the header-click sort state;
  - the sorted copy of the items, using the source's comparator;
  - the status label and the person colour stripe.
- **The create form** (`CreateItemForm`): the initial values and the tag
  list's add and remove.
- **The page** (`KanbanApp`): the parameters of the item fetch, the
  loading and error states, and the view toggle.
- **The automation (MCP) server's tool calls** (`McpServer`):
  - the keyword guess of a new item's category;
  - each tool's argument checks and the HTTP request it sends;
  - how an answer or a failure becomes the tool's result.

What is outside the model becomes a parameter:

- the current time;
- generated ids;
- what an HTTP exchange returned.

Behaviours of the source a reader might not expect, which the model
keeps:

- **Search drops the other filters.** With a search term, the list handler
  discards the status, priority and assignee narrowings. It does not
  intersect them with the search result (`ItemsApi.SearchIgnoresExactFilters`).
- **The board has three columns.** They are `todo`, `overdue` and `done`.
  Items `in_progress` or under `review` appear in no column
  (`KanbanBoard.OtherStatusesInNoColumn`).
- **The table's comparator has no ties.** It never returns 0, so equal
  keys are not kept in a defined order. The table's order is modelled as
  an insertion sort driven by that comparator.
- **An update can rewrite `created_at`.** `PUT /:id` passes every body key
  to the store, `created_at` included, so a row can end up created after
  its last update (`ItemsApi.PutRewritesCreatedAt`).
- **`for_whom` is forwarded but never read.** The automation tool's
  listing advertises and forwards a `for_whom` filter
  (`McpServer.ForwardedFilters`), but the list handler reads no such
  parameter (`ItemsApi.Query` has none), so the filter changes nothing.

Common string helpers live in `Common`:

- `Trim` as JavaScript's `trim`;
- `Lower` as `toLowerCase` on ASCII letters;
- `StrLess` as the order of strings by Unicode code point, which is
  SQLite's order on UTF-8 text and, outside the case under "## Left out",
  JavaScript's string order;
- `Split`, `Contains` and `Filter`.

## Model

| member | source | states |
|---|---|---|
| BackendModel.ParseStatus | backend/src/models/ActionItem.ts:5 | a status is read only from `todo` or `done`, and reads back as the same text |
| BackendModel.ParsePriority | backend/src/models/ActionItem.ts:6 | a priority is read only from `low`, `medium` or `high`, and reads back as the same text |
| BackendModel.ParseCategory | backend/src/models/ActionItem.ts:7 | a category is read only from `personal` or `professional`, and reads back as the same text |
| BackendModel.NamesRoundTrip | backend/src/models/ActionItem.ts:5-7 | every status, priority and category survives being written out and read back |
| FrontendModel.ParseFrontStatus | frontend/src/types/ActionItem.ts:5 | the client's status is exactly one of `todo`, `in_progress`, `review`, `done` |
| FrontendModel.FrontStatusRoundTrip | frontend/src/types/ActionItem.ts:5 | every client status survives being written out and read back |
| FrontendModel.FromBackendStatus | frontend/src/types/ActionItem.ts:5 | a server status keeps its text on the client and is always `todo` or `done` |
| FrontendModel.FromBackend | frontend/src/types/ActionItem.ts:1-12 | the client's record keeps every field its type declares (id, title, description, status text, priority, dates, assignee, tags) and has no category or `for_whom` |
| FrontendModel.ServerItemsAreTodoOrDone | frontend/src/types/ActionItem.ts:5 | items that come from the server are never `in_progress` or `review` |
| Common.Trim | frontend/src/components/CreateItemForm.tsx:36 | `trim` removes exactly the leading and trailing whitespace: the result occurs in the input with only whitespace around it, does not start or end with whitespace, and is empty exactly when the input is all whitespace |
| Common.TrimIdempotent | frontend/src/components/CreateItemForm.tsx:36-37 | trimming an already trimmed string changes nothing |
| Common.Lower | frontend/src/components/TableView.tsx:57 | `toLowerCase` keeps the length and maps each upper-case ASCII letter to its lower-case letter |
| Common.LowerIdempotent | frontend/src/components/TableView.tsx:57 | lower-casing twice is lower-casing once |
| Common.Split | frontend/src/utils/dateUtils.ts:9 | `split('-')` gives at least one part and no part contains the separator |
| Common.SplitCons | frontend/src/utils/dateUtils.ts:9 | the text before the first separator is the first part, and the rest splits on its own |
| Common.StrLessTotal | frontend/src/components/TableView.tsx:29 | the string order is total: two different strings are always comparable |
| Common.StrLessTransitive | frontend/src/components/TableView.tsx:29 | the string order is transitive |
| Common.StrLessIrreflexive | frontend/src/components/TableView.tsx:29 | no string is less than itself |
| Common.StrLessAsymmetric | frontend/src/components/TableView.tsx:29 | two strings are never each less than the other |
| DateUtils.DaysInMonth | frontend/src/utils/dateUtils.ts:10 | a month of the Gregorian calendar has 28 to 31 days |
| DateUtils.DateLessStrictTotal | frontend/src/utils/dateUtils.ts:45 | the order of calendar dates is irreflexive and total on distinct dates |
| DateUtils.ToNumber | frontend/src/utils/dateUtils.ts:9 | `Number` of a part gives its decimal value when the trimmed part is all digits (an empty part is 0), and NaN otherwise |
| DateUtils.ToNumberOfNatToString | frontend/src/utils/dateUtils.ts:9 | a number printed in decimal is read back as itself |
| DateUtils.MakeLocalDate | frontend/src/utils/dateUtils.ts:10 | `new Date(y, m - 1, d)` is a valid instant exactly when the date with month `m` and day `d` is valid (years 0 to 99 read as 1900 to 1999), and then it is that date's midnight |
| DateUtils.ParseLocalDate | frontend/src/utils/dateUtils.ts:5-11 | an empty string gives the current instant; a string with fewer than three `-`-separated parts is an Invalid Date; any valid result is midnight of a valid calendar date |
| DateUtils.ToNumberDigits | frontend/src/utils/dateUtils.ts:9 | `Number` of a string of digits, leading zeros included, is its decimal value |
| DateUtils.ParseDashedDigits | frontend/src/utils/dateUtils.ts:5-11 | `YYYY-MM-DD`, zero-padded or not, reads as midnight of the date its digits name (years 0 to 99 as 1900 to 1999) when that date is valid, and as an Invalid Date otherwise |
| DateUtils.DashedDigitsMake | frontend/src/utils/dateUtils.ts:8-10 | `Y-M-D` digit text splits into its three parts, each reads as the number its digits spell, and the result is `new Date` of year, month minus one and day |
| DateUtils.ParseDateText | frontend/src/utils/dateUtils.ts:5-11 | a valid date from year 100 on, printed as `Y-M-D`, reads back as that date's midnight |
| DateUtils.MonthAbbrev | frontend/src/utils/dateUtils.ts:23 | each month has a three-letter abbreviation |
| DateUtils.MonthAbbrevInjective | frontend/src/utils/dateUtils.ts:23 | different months have different abbreviations |
| DateUtils.FormatDate | frontend/src/utils/dateUtils.ts:16-33 | a missing or empty string formats as `-`, and a format other than `MMM d` or `MMM d, yyyy` returns the input unchanged |
| DateUtils.FormatDashedDigits | frontend/src/utils/dateUtils.ts:19-30 | `YYYY-MM-DD`, padded or not, naming a valid date formats as its month abbreviation, a space and the unpadded day, followed by `, ` and the year for `MMM d, yyyy`; naming an invalid date it formats as `undefined NaN` |
| DateUtils.FormatInvalid | frontend/src/utils/dateUtils.ts:22-30 | an unparseable date formats as `undefined NaN` (and `undefined NaN, NaN` with the year) |
| DateUtils.StartOfDay | frontend/src/utils/dateUtils.ts:42-43 | today's midnight is on today's date and not after now |
| DateUtils.IsOverdueMeaning | frontend/src/utils/dateUtils.ts:38-46 | overdue means a present, non-empty string that parses to a valid date strictly before today's date |
| DateUtils.OverdueDashedDigits | frontend/src/utils/dateUtils.ts:38-45 | `YYYY-MM-DD`, padded or not, is overdue exactly when it names a valid date before today, so today itself is never overdue |
| KanbanBoard.ColumnsLayout | frontend/src/components/KanbanBoard.tsx:13-17 | the board has exactly the columns `todo`, `overdue`, `done`, in that order, each once |
| KanbanBoard.DragEnd | frontend/src/components/KanbanBoard.tsx:32-47 | a drop outside a column or onto `overdue` sends nothing; any other drop sends the item's id with the destination column as its new status |
| KanbanBoard.DropOntoColumn | frontend/src/components/KanbanBoard.tsx:39-47 | a drop onto a board column sends nothing exactly for `overdue`, and otherwise sends a status the status patch accepts |
| KanbanBoard.IsOverdueMeaning | frontend/src/components/KanbanBoard.tsx:54-60 | a done item is never overdue; for any other item the card's test is the date test on its due date (the table's `isOverdue`, TableView.tsx lines 60-66, is the same code and the table model reuses this function) |
| KanbanBoard.ExactlyOneColumn | frontend/src/components/KanbanBoard.tsx:67-75 | every `todo` or `done` item lands in exactly one column |
| KanbanBoard.OtherStatusesInNoColumn | frontend/src/components/KanbanBoard.tsx:67-75 | `in_progress` and `review` items land in no column |
| KanbanBoard.Rank | frontend/src/components/KanbanBoard.tsx:63 | the priority rank puts `high` first (0) and `low` last (2) |
| KanbanBoard.ByPriorityLayout | frontend/src/components/KanbanBoard.tsx:62-65 | the stable priority order puts the high items first, then the medium ones, then the low ones |
| KanbanBoard.ByPrioritySorted | frontend/src/components/KanbanBoard.tsx:62-65 | the sorted column never has a lower priority before a higher one |
| KanbanBoard.ByPriorityPermutation | frontend/src/components/KanbanBoard.tsx:62-65 | the sorted column holds each input item as many times as the input does |
| KanbanBoard.ByPriorityStable | frontend/src/components/KanbanBoard.tsx:64 | items of equal priority keep their input order |
| KanbanBoard.ByPriorityMembers | frontend/src/components/KanbanBoard.tsx:64 | sorting keeps exactly the items it was given |
| KanbanBoard.InsertionSortIsByPriority | frontend/src/components/KanbanBoard.tsx:62-65 | the insertion sort by rank yields exactly the stable high, medium, low order |
| KanbanBoard.SortByPriority | frontend/src/components/KanbanBoard.tsx:62-65 | the in-place sort leaves the array holding the insertion sort by rank of its old contents |
| KanbanBoard.GetItemsByColumn | frontend/src/components/KanbanBoard.tsx:67-77 | a column holds exactly the items that belong in it, in the stable priority order, high first |
| KanbanBoard.ShownTags | frontend/src/components/KanbanBoard.tsx:215 | a card shows the first tags, at most two |
| KanbanBoard.TagChipsCountAll | frontend/src/components/KanbanBoard.tsx:213-227 | a `+n` chip appears exactly when more than two tags exist, and n is the number of tags not shown |
| TableView.Flip | frontend/src/components/TableView.tsx:18 | toggling the order always changes it |
| TableView.NextSort | frontend/src/components/TableView.tsx:16-23 | a header click sorts by that field; the same field flips the order and a new field starts ascending |
| TableView.ClickTwiceRestores | frontend/src/components/TableView.tsx:17-18 | two clicks on the current header restore the sort state |
| TableView.NewFieldTwiceDescends | frontend/src/components/TableView.tsx:16-23 | two clicks on a new header sort by it descending |
| TableView.HeaderArrow | frontend/src/components/TableView.tsx:105-149 | only the current sort field's header shows an arrow, `↑` exactly when ascending |
| TableView.TableState.constructor | frontend/src/components/TableView.tsx:12-13 | the table opens sorted by creation time, descending |
| TableView.TableState.HandleSort | frontend/src/components/TableView.tsx:16-23 | a header click moves the sort state to the next sort of that click |
| TableView.TableState.SortedItems | frontend/src/components/TableView.tsx:25-30 | the sorted copy is a permutation of the items, ordered by the current field's key (missing values as `''`) in the current direction |
| TableView.Compare | frontend/src/components/TableView.tsx:26-29 | the comparator answers ±1 and never 0; ascending puts `a` after `b` exactly when `a`'s key is greater, and descending puts `a` after `b` exactly when `a`'s key is at most `b`'s |
| TableView.OrderedPairwise | frontend/src/components/TableView.tsx:25-30 | in an ordered table any earlier row's key is at most any later row's key in the chosen direction |
| TableView.OrderedDistinctIsStrict | frontend/src/components/TableView.tsx:26-29 | with distinct keys the order is strictly ascending or strictly descending, as chosen |
| TableView.InsertPermutes | frontend/src/components/TableView.tsx:25 | one insertion step adds the item and loses none |
| TableView.InsertionSortPermutes | frontend/src/components/TableView.tsx:25 | the sorted copy holds exactly the given items, each as often as given |
| TableView.InsertKeepsOrder | frontend/src/components/TableView.tsx:25-30 | inserting into an ordered sequence keeps it ordered |
| TableView.InsertionSortOrders | frontend/src/components/TableView.tsx:25-30 | the sorted copy is ordered by the key in the chosen direction |
| TableView.SortInPlace | frontend/src/components/TableView.tsx:25-30 | sorting the copied array in place leaves the insertion sort of its old contents |
| TableView.ReplaceFirstUnderscore | frontend/src/components/TableView.tsx:188 | `replace('_', ' ')` turns only the first underscore into a space and keeps every other character |
| TableView.StatusLabels | frontend/src/components/TableView.tsx:188 | an overdue row's label is `overdue`; otherwise the labels are `todo`, `in progress`, `review`, `done`, and a done row is always `done` |
| TableView.PersonColor | frontend/src/components/TableView.tsx:49-58 | no name gives no class text; a name whose lower-case form is one of the four known names gives its stripe, and `constructor` or `__proto__` gives the printed inherited member |
| TableView.PersonColorMeaning | frontend/src/components/TableView.tsx:57 | the lookup ignores letter case; a name gets a stripe exactly when its lower-case form is one of the four known names, and some class text exactly when it is one of those or an inherited key |
| CreateItemForm.DropIndex | frontend/src/components/CreateItemForm.tsx:44 | removing index `i` removes exactly the tag at `i`, keeping the order of the others; an index out of range changes nothing |
| CreateItemForm.TagsAfterAdd | frontend/src/components/CreateItemForm.tsx:35-40 | a non-blank input adds its trimmed text at the end, keeping the old tags as a prefix; a blank input changes nothing |
| CreateItemForm.AddKeepsTrimmed | frontend/src/components/CreateItemForm.tsx:37 | adding keeps every tag non-empty and trimmed |
| CreateItemForm.RemoveKeepsTrimmed | frontend/src/components/CreateItemForm.tsx:44 | removing keeps every remaining tag non-empty and trimmed |
| CreateItemForm.RemoveUndoesAdd | frontend/src/components/CreateItemForm.tsx:35-46 | removing the tag just added restores the list |
| CreateItemForm.FormState.constructor | frontend/src/components/CreateItemForm.tsx:11-22 | a fresh form is `todo`, `medium`, `personal`, with empty text fields, no tags and an empty tag input |
| CreateItemForm.FormState.SetTagInput | frontend/src/components/CreateItemForm.tsx:22 | typing sets the tag input and leaves the tags and every other field unchanged |
| CreateItemForm.FormState.AddTag | frontend/src/components/CreateItemForm.tsx:35-40 | the tags become the list after adding the input, the input is cleared exactly when it was not blank, and every other field is unchanged |
| CreateItemForm.FormState.RemoveTag | frontend/src/components/CreateItemForm.tsx:42-46 | the tags lose the one at the index, and every other field is unchanged |
| KanbanApp.FetchParams | frontend/src/ActionKanbanApp.tsx:25-27 | `search` is sent exactly when the search term is non-empty, and `category` exactly when the filter is not `all`, each with its value |
| KanbanApp.QueryOf | frontend/src/ActionKanbanApp.tsx:29 | the server receives the search and category and no other filter |
| KanbanApp.QueryCategoryOf | frontend/src/ActionKanbanApp.tsx:27 | the server reads the category filter back as the category it names, or none for `all` |
| KanbanApp.FetchSelects | frontend/src/ActionKanbanApp.tsx:22-30 | a fetch returns, newest first, exactly the stored items of the chosen category that match the search term, or all of them without a term |
| KanbanApp.OtherView | frontend/src/ActionKanbanApp.tsx:81 | the toggle always changes the view |
| KanbanApp.OtherViewTwice | frontend/src/ActionKanbanApp.tsx:81 | toggling twice returns to the view it started from |
| KanbanApp.AppState.constructor | frontend/src/ActionKanbanApp.tsx:14-20 | the page opens on the board, loading, with no items, no error, no search and all categories |
| KanbanApp.AppState.FetchItems | frontend/src/ActionKanbanApp.tsx:22-38 | the fetch sends the parameters of the current search and filter; success replaces the items and clears the error, failure sets the error and keeps the items; loading ends either way |
| KanbanApp.AppState.ToggleView | frontend/src/ActionKanbanApp.tsx:81 | the view becomes the other one and nothing else changes |
| Store.CellsDetermineRow | backend/src/db/database.ts:19-32 | a row is determined by the values of its twelve columns |
| Store.CategoryOrDefault | backend/src/db/database.ts:102 | a missing or empty category is stored as `personal`, and any other is kept |
| Store.RowOf | backend/src/db/database.ts:88-114 | the inserted row carries every field of the record, with the category defaulted |
| Store.Decode | backend/src/db/database.ts:64 | a row reads back unchanged except that missing tags read as the empty list |
| Store.DecodeAll | backend/src/db/database.ts:62-65 | reading rows back decodes each row in place |
| Store.FindById | backend/src/db/database.ts:74-76 | lookup by id finds a row with that id exactly when one exists |
| Store.FindByIdUnique | backend/src/db/database.ts:20 | with unique ids, the row found is the only row with that id |
| Store.OrderByCreatedDesc | backend/src/db/database.ts:59 | `ORDER BY created_at DESC` yields a permutation of the rows, newest first |
| Store.FilterNewestFirst | backend/src/db/database.ts:171 | narrowing a newest-first list keeps it newest first |
| Store.SortFilterCommute | backend/src/db/database.ts:171 | narrowing and then sorting newest first equals sorting and then narrowing |
| Store.SetList | backend/src/db/database.ts:118-126 | the loop collects exactly the supplied keys other than `id`, in column order |
| Store.SetColumn | backend/src/db/database.ts:123 | one `col = ?` assignment changes that column only, and never `id` |
| Store.SetColumns | backend/src/db/database.ts:129 | applying a `SET` list keeps the row's id |
| Store.SetColumnsCell | backend/src/db/database.ts:129 | after a `SET` list, each listed column holds its new value and every other column keeps its value |
| Store.UpdateRowCells | backend/src/db/database.ts:116-136 | update overwrites every supplied key except `id` and leaves every other column unchanged |
| Store.UpdateIsFieldwise | backend/src/db/database.ts:116-136 | the row update leaves is the stored row with each supplied field other than `id` replaced by its supplied value (enumerations parsed back) and every other field kept |
| Store.SetClauseEmpty | backend/src/db/database.ts:129 | the `SET` list is empty exactly when the payload supplies no key but `id` |
| Store.UpdatedRows | backend/src/db/database.ts:116-136 | an update keeps the number of rows and the id of each |
| Store.UpdatedRowsCells | backend/src/db/database.ts:121-129 | only the addressed row changes, in exactly the supplied columns |
| Store.FilterKeepsUnique | backend/src/db/database.ts:140 | removing rows keeps the ids unique |
| Store.CreatedRowReadsBack | backend/src/db/database.ts:94 | a created row is the one found by its id, and reads back with its tags, or the empty list when it had none |
| Store.Database.constructor | backend/src/db/database.ts:17-33 | a new table is empty |
| Store.Database.GetAll | backend/src/db/database.ts:57-70 | `getAll` returns every stored row, decoded, newest first |
| Store.Database.GetById | backend/src/db/database.ts:72-86 | `getById` returns null exactly for an unknown id, and otherwise the decoded row with that id |
| Store.Database.Create | backend/src/db/database.ts:88-114 | `create` appends the row exactly when it meets the schema and its id is new, and otherwise changes nothing |
| Store.Database.Update | backend/src/db/database.ts:116-136 | `update` succeeds exactly when the `SET` list is non-empty, every key names a column, and either the new values pass the CHECK constraints or no row has the id; it rewrites the addressed row when there is one, and otherwise nothing changes |
| Store.KeyWithCommaSetText | backend/src/db/database.ts:121-129 | as written, a key `x = ?, y` gives the same `SET` text as the two keys `x` and `y`: two assignments from one key |
| Store.KeySetTextInjects | backend/src/db/database.ts:121-129 | as written, the body key `title = ?, status` makes two assignments, of `title` and `status`, in the `SET` text |
| Store.ColumnSetText | backend/src/db/database.ts:121-129 | with keys taken from the table's columns, the `SET` text holds exactly one assignment per key |
| Store.Database.Delete | backend/src/db/database.ts:138-145 | `delete` removes exactly the row with that id |
| Store.Database.Search | backend/src/db/database.ts:147-167 | `search` returns, newest first, exactly the rows whose title, description or assignee contains the query |
| Store.Database.GetByCategory | backend/src/db/database.ts:169-182 | `getByCategory` returns, newest first, exactly the rows of that category |
| ItemsApi.OrElse | backend/src/api/actionItems.ts:68-70 | a present, non-empty value is kept, and a missing or empty one is replaced by the default |
| ItemsApi.QueryCategory | backend/src/api/actionItems.ts:16 | only `personal` and `professional` count as a category filter |
| ItemsApi.ListResultMeaning | backend/src/api/actionItems.ts:9-44 | the list is newest first; with a search term it holds exactly the matching rows of a valid category, and otherwise exactly the rows passing every given filter |
| ItemsApi.SearchIgnoresExactFilters | backend/src/api/actionItems.ts:32-38 | with a search term, the status, priority and assignee parameters change nothing |
| ItemsApi.InvalidCategoryIgnored | backend/src/api/actionItems.ts:16-20 | a category other than `personal` or `professional` acts as no category |
| ItemsApi.EmptyQueryListsAll | backend/src/api/actionItems.ts:19 | without parameters the list is every row, newest first |
| ItemsApi.NarrowingChain | backend/src/api/actionItems.ts:23-31 | the narrowings applied one after another equal the single narrowing by all of them |
| ItemsApi.SortedCategoryIsFilter | backend/src/api/actionItems.ts:17 | the category's base list is the newest-first list narrowed to that category |
| ItemsApi.NarrowExact | backend/src/api/actionItems.ts:23-31 | each of the status, priority and assignee narrowings is applied exactly when its parameter is truthy, and an absent one keeps every row |
| ItemsApi.ListItems | backend/src/api/actionItems.ts:9-44 | the handler answers the list described by the list result |
| ItemsApi.GetOne | backend/src/api/actionItems.ts:47-57 | 404 exactly for an unknown id, and otherwise the stored row with that id |
| ItemsApi.NewItem | backend/src/api/actionItems.ts:65-74 | a new record takes the generated id unless the body has one, `todo`, `medium` and `personal` for missing or empty fields, and the current time for both timestamps |
| ItemsApi.TypedCreateStoresPayload | backend/src/api/actionItems.ts:65-74 | a well-typed create payload always meets the schema, and is stored with the generated id and one creation time |
| ItemsApi.BodyTimestampsIgnored | backend/src/api/actionItems.ts:72-73 | timestamps in the body never reach the record |
| ItemsApi.EmptyBodyDefaults | backend/src/api/actionItems.ts:68-70 | an empty body gets all three defaults and fails only for lack of a title |
| ItemsApi.CreateItem | backend/src/api/actionItems.ts:59-81 | a create stores the record and answers 201 with it, together with the body's keys that name no column, when the store accepts it, and otherwise answers 500 and stores nothing |
| ItemsApi.PutRewritesCreatedAt | backend/src/api/actionItems.ts:86-98 | a body `created_at` is written like any other column, so with a body time later than now the row's `updated_at` sorts before its `created_at` |
| ItemsApi.TypedUpdateApplies | backend/src/api/actionItems.ts:86-98 | a well-typed update payload always passes the CHECK constraints and names only columns; the row keeps its id and creation time, takes every field the payload sets, and gets `updated_at` = now |
| ItemsApi.PutChanges | backend/src/api/actionItems.ts:93-96 | the update is the body with `updated_at` set to now |
| ItemsApi.PutAlwaysSets | backend/src/api/actionItems.ts:93-98 | a whole-record update always writes at least `updated_at` |
| ItemsApi.StatusPatchEffect | backend/src/api/actionItems.ts:120-123 | a status patch changes the status and `updated_at` and nothing else |
| ItemsApi.CategoryPatchEffect | backend/src/api/actionItems.ts:146-149 | a category patch changes the category and `updated_at` and nothing else |
| ItemsApi.UpdatedRowFound | backend/src/api/actionItems.ts:98-99 | after an update, the row is still found by its id, with the new values |
| ItemsApi.UpdateAndReadBack | backend/src/api/actionItems.ts:98-103 | for a stored id, an update whose values pass the CHECK constraints and whose keys all name columns rewrites the row and answers it read back; any other answers 500 and writes nothing |
| ItemsApi.UpdateItem | backend/src/api/actionItems.ts:84-104 | 404 for an unknown id with nothing written; otherwise every supplied key but `id`, plus `updated_at`, is written and the answer is the stored row with those fields replaced, or 500 with nothing written when a value breaks a CHECK constraint or a key names no column |
| ItemsApi.PatchStatus | backend/src/api/actionItems.ts:107-130 | 400 for a status other than `todo` or `done`, before the store is read; then 404 for an unknown id; otherwise only the status and `updated_at` change |
| ItemsApi.PatchCategory | backend/src/api/actionItems.ts:133-156 | 400 for a category other than `personal` or `professional`, before the store is read; then 404 for an unknown id; otherwise only the category and `updated_at` change |
| ItemsApi.DeleteItem | backend/src/api/actionItems.ts:159-171 | 404 with nothing removed for an unknown id; otherwise exactly that row is removed, the others keep their order, and the answer is 204 |
| McpServer.AnyKeyword | mcp-server/src/index.ts:188 | `some(includes)` holds exactly when some keyword occurs in the text |
| McpServer.GuessCategory | mcp-server/src/index.ts:184-193 | the guess is always `professional` or `personal` |
| McpServer.GuessMeaning | mcp-server/src/index.ts:185-192 | the guess is `professional` exactly when one of the seven keywords occurs in the lower-cased title and description joined by a space |
| McpServer.KeywordInTitle | mcp-server/src/index.ts:185-189 | a keyword in the title, in any letter case, makes the item professional |
| McpServer.WithCategory | mcp-server/src/index.ts:184-193 | after classification a category is present and non-empty; a given category is kept, and no other argument changes |
| McpServer.GuessIsCategory | mcp-server/src/index.ts:189-191 | the guessed category is one the items API accepts |
| McpServer.ToolArguments.constructor | mcp-server/src/index.ts:181 | the arguments object is the call's arguments, or empty |
| McpServer.ToolArguments.AutoCategorize | mcp-server/src/index.ts:183-193 | classifying the arguments in place leaves them with the category applied |
| McpServer.ForwardedFilters | mcp-server/src/index.ts:207-213 | exactly the truthy known filters are forwarded, each with its value |
| McpServer.ListWithoutFilters | mcp-server/src/index.ts:207-215 | with no truthy filter the listing asks for every item |
| McpServer.UnknownFiltersDropped | mcp-server/src/index.ts:207-213 | an argument that is not a known filter is never forwarded |
| McpServer.QueryPairs | backend/src/api/actionItems.ts:11 | the server splits a query string on `&` into `key=value` pairs |
| McpServer.ReceivedFromPath | backend/src/api/actionItems.ts:11 | a path `a?qs` carries the pairs of `qs` |
| McpServer.SearchPairCut | backend/src/api/actionItems.ts:11 | in `search=a&b`, with no `&` in `a`, the server reads the search term as `a` |
| McpServer.ReceivedAsWritten | mcp-server/src/index.ts:262 | the unencoded search request carries the pairs of `search=` followed by the raw query |
| McpServer.SearchAsWrittenCutsAtAmpersand | mcp-server/src/index.ts:262 | as written, a query holding `&` reaches the server cut at the first `&` (for text before it free of `+`, `%` and `#`) |
| McpServer.SearchAsWrittenLosesText | mcp-server/src/index.ts:262 | as written, `R&D` is searched as `R` |
| McpServer.SearchRequest | mcp-server/src/index.ts:258-262 | the search is a GET of the items path |
| McpServer.SearchArrivesWhole | mcp-server/src/index.ts:262 | with the query encoded, the server reads back the whole query as the search term |
| McpServer.SearchIsListing | mcp-server/src/index.ts:258-271 | searching is the same request as listing with only a search term |
| McpServer.PlanCall | mcp-server/src/index.ts:179-289 | update and delete are refused exactly without `id`; `change_status` exactly without `id` or `status`; search exactly without `query`; create always posts its arguments with the category filled in (`WithCategory`), and list always sends the filtered GET (`ListRequest`, whose query `ForwardedFilters` pins); every refusal carries the source's message |
| McpServer.ChangeStatusSendsStatus | mcp-server/src/index.ts:242-247 | a status change is a PATCH of the item's `/status` path whose body is the status alone |
| McpServer.DeleteSendsItemPath | mcp-server/src/index.ts:273-277 | a deletion is a DELETE of the item's path, and no argument but the id affects it |
| McpServer.SearchSendsQuery | mcp-server/src/index.ts:258-262 | a search is a GET of the items path from which the server reads the whole query as the search term |
| McpServer.UpdateStripsId | mcp-server/src/index.ts:226-231 | an update is a PUT to the item's path whose body is exactly the arguments without `id` |
| McpServer.CreateHasCategory | mcp-server/src/index.ts:180-195 | a create is a POST that always carries a non-empty category, and a given category is sent as is |
| McpServer.ErrorResult | mcp-server/src/index.ts:291-301 | an error result is flagged as an error and reads `Error: ` followed by the message |
| McpServer.FailureMessage | mcp-server/src/index.ts:292 | a failure is reported with the server's non-empty `error`, else with the exception's non-empty message, else with `Unknown error occurred` |
| McpServer.CallResult | mcp-server/src/index.ts:174-302 | a result is an error exactly when the arguments were refused or the exchange failed, and then carries that message; an answered deletion is the sentence `Action item <id> deleted successfully`, and any other answer is the server's JSON |
| McpServer.UnknownToolIsError | mcp-server/src/index.ts:288-289 | an unknown tool is an error naming the tool, whatever came back |

## Left out

- **Clock, ids and transport.** I/O and the HTTP transport are left out:
  - the real clock and `uuid`;
  - Express, axios, the stdio transport of the automation server and the
    `API_BASE_URL` prefix.
  - The current instant, the generated id and an exchange's outcome are
    parameters instead.
- **SQLite.**
  - The SQL text, callbacks and promises are left out, and so are the
    table-creation call and the `ALTER TABLE` migrations.
  - `LIKE` is taken as a substring test that ignores ASCII letter case.
    `%` and `_` in a query are not treated as wildcards.
  - The tag list's JSON text is modelled as the list itself.
- **Null values.** A `null` value for a key in an update body is not
  modelled: a key is either supplied with a string or absent.
- Store.Database.Update: a body key that names no column fails the
  update, as SQLite's "no such column" does. A key that carries SQL text of
  its own can instead form a valid statement (see "## Findings"); the model
  treats every such key as naming no column. SQLite also resolves a column
  name in any letter case, which the model does not.
- Store.OrderByCreatedDesc: SQLite leaves the order of rows with equal
  `created_at` unspecified. The model keeps their insertion order, and
  Store.SortFilterCommute and ItemsApi.SortedCategoryIsFilter rely on that
  choice.
- **Query-string shapes.** Express's arrays and nested objects for
  repeated or bracketed keys are not modelled, nor its decoding of `+` and
  `%xx`, nor a `#` ending the URL. Nor is the exact
  percent-encoding of `URLSearchParams`: the model only states that
  encoded parameters arrive whole.
- **Argument types.** Values of tool arguments are strings. Numbers,
  booleans and arrays passed to the automation tools are not modelled.
  A tool's JSON answer is a given string, not the output of
  `JSON.stringify`.
- **Number parsing.**
  - `Number` on date parts is modelled for plain digit strings.
  - Signs, decimals, exponents and hexadecimal text read as NaN in the
    model.
- **Date normalisation.** JavaScript would carry an out-of-range month or
  day into the next month or year. The model treats such a date as
  invalid, and so is a date after 13 September 275760.
- **Time zones.**
  - The board and the table parse a due date with `new Date(text)`, which
    reads `YYYY-MM-DD` as UTC midnight. The model uses the local
    `parseLocalDate` reading for them as well, so it does not capture the
    day shift between the two in time zones west of UTC.
  - `toLocaleDateString` (frontend/src/components/TableView.tsx:84) is
    not modelled.
- KanbanBoard.IsOverdueMeaning: besides the day shift above, `new Date(text)`
  reads full ISO date-times such as `2024-01-05T10:00:00Z`, the form the
  automation tool's schema asks for (mcp-server/src/index.ts:39).
  `parseLocalDate` reads them as an Invalid Date, so in the model such an
  item is never overdue on the board or in the table.
- **Letter case.** `toLowerCase` is modelled for ASCII letters only. Other
  letters keep their case in the model.
- TableView.Compare: JavaScript compares strings by UTF-16 code unit and the
  model by code point. The two disagree only when one key holds a character
  above U+FFFF where the other holds one from U+E000 to U+FFFF (`😀` sorts
  before `！` in JavaScript and after it in the model).
- McpServer.PlanCall: the search tool's branch sends the corrected, encoded
  request (McpServer.SearchRequest). The request as written is
  McpServer.SearchRequestAsWritten, whose effect the search tool's row of
  "## Findings" states.
- **Sort algorithms.**
  - KanbanBoard.SortByPriority: the engine's sort algorithm is replaced by
    an insertion sort. For this comparator, a consistent one, every stable
    sort gives the same order.
  - TableView.TableState.SortedItems: the comparator is inconsistent on
    equal keys, so the engine's own order for ties is unspecified. The
    model states the insertion-sort order, a permutation ordered by the
    key, rather than the engine's exact placement of ties.
- **Rendering.**
  - All JSX, colours other than the person stripe, CSS classes and hover
    state are left out.
  - `getPriorityColor` and `getStatusColor` are left out, and so are the
    board's person stripe (identical in form to the table's) and the edit
    modal.
- **Fetch trigger.** The `useEffect` that refetches on a change of search
  term or filter, the search form's submit, and console logging are
  left out.
- **Client API wrappers.** `frontend/src/api/actionItems.ts` is a thin
  HTTP wrapper. It is not part of this model beyond the query it sends,
  which KanbanApp.QueryOf states.
- **Description field.** The server's `description` is declared as a
  required string, but its column is nullable and a create without one
  stores NULL. The model keeps it optional in both records.
- **Create-form submission.** The create form's submit is not modelled. It
  posts the form and closes it, which is the create handler's behaviour.

## Findings

| source | as written | input that shows it | evidently intended | confidence | as-written member | corrected member |
|---|---|---|---|---|---|---|
| backend/src/db/database.ts:121-129 | `update` pastes every body key except `id` into the SQL text as `${key} = ?`, so a key is SQL | `PUT /:id` with the body key `title = ?, status`: one key makes the two assignments `title = ?` and `status = ?` in the `SET` text | only column names become assignments, one assignment per key | not executed | Store.KeySetTextInjects | Store.ColumnSetText |
| mcp-server/src/index.ts:262 | the search tool pastes the query into the URL with no encoding, so the server splits it at `&` (and reads `#`, `+` and `%` specially) | query `R&D`: the server searches for `R` | the query is sent as an encoded parameter, as `list_action_items` does with `URLSearchParams`, so the whole query is the search term | not executed | McpServer.SearchAsWrittenLosesText | McpServer.SearchArrivesWhole |
