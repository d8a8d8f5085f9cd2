/**
 * The table view: the header-click sort state, the sorted copy of the
 * items the table draws, the status label of a row and the colour
 * stripe chosen by the person a row is for.
 */
module TableView {
  import opened Common
  import BackendModel
  import opened FrontendModel
  import DateUtils
  import KanbanBoard

  /**
   * A row as the table receives it from the server: the client's item,
   * plus the `category` and `for_whom` fields the server's JSON carries
   * and the table reads although the client's type does not declare them.
   */
  datatype Row = Row(item: FrontItem, category: Option<string>, forWhom: Option<string>)

  /** The columns the table can be sorted by: one per clickable header. */
  datatype SortField = Title | Status | Priority | CategoryField | ForWhom | DueDate | Assignee | CreatedAt

  datatype SortOrder = Asc | Desc

  // ---------------------------------------------------------------------
  // handleSort
  // ---------------------------------------------------------------------

  function Flip(o: SortOrder): (r: SortOrder)
    ensures r != o
  {
    if o == Asc then Desc else Asc
  }

  /**
   * The sort state after a click on the header of `clicked`: the same
   * field flips the order, another field is taken in ascending order.
   */
  function NextSort(field: SortField, order: SortOrder, clicked: SortField): (r: (SortField, SortOrder))
    ensures r.0 == clicked
    ensures clicked == field ==> r.1 != order
    ensures clicked != field ==> r.1 == Asc
  {
    if clicked == field then (field, Flip(order)) else (clicked, Asc)
  }

  /** Clicking the same header twice restores the order it started from. */
  lemma ClickTwiceRestores(field: SortField, order: SortOrder)
    ensures var (f1, o1) := NextSort(field, order, field);
      NextSort(f1, o1, field) == (field, order)
  {
  }

  /** Two clicks on a new header sort by it in descending order. */
  lemma NewFieldTwiceDescends(field: SortField, order: SortOrder, clicked: SortField)
    requires clicked != field
    ensures var (f1, o1) := NextSort(field, order, clicked);
      NextSort(f1, o1, clicked) == (clicked, Desc)
  {
  }

  /** The arrow a header shows: only the current sort field has one. */
  function HeaderArrow(field: SortField, order: SortOrder, header: SortField): (r: Option<string>)
    ensures r.Some? <==> header == field
    ensures r.Some? ==> (r.value == "↑" <==> order == Asc)
  {
    if header != field then None
    else if order == Asc then Some("↑")
    else Some("↓")
  }

  /** The table's sort state: which field, which direction. */
  class TableState {
    var sortField: SortField
    var sortOrder: SortOrder

    /** The table opens sorted by creation time, newest first. */
    constructor ()
      ensures sortField == CreatedAt && sortOrder == Desc
    {
      sortField := CreatedAt;
      sortOrder := Desc;
    }

    /** `handleSort`: the state moves to `NextSort` of the click. */
    method HandleSort(clicked: SortField)
      modifies this
      ensures (sortField, sortOrder) == NextSort(old(sortField), old(sortOrder), clicked)
    {
      if sortField == clicked {
        sortOrder := if sortOrder == Asc then Desc else Asc;
      } else {
        sortField := clicked;
        sortOrder := Asc;
      }
    }

    /**
     * `sortedItems`: a copy of `items` put in the order of the current
     * sort state; the input is left as it is.
     */
    method SortedItems(items: seq<Row>) returns (sorted: seq<Row>)
      ensures sorted == InsertionSort(items, KeyOf(sortField), sortOrder)
      ensures multiset(sorted) == multiset(items)
      ensures Ordered(sorted, KeyOf(sortField), sortOrder)
    {
      var a := new Row[|items|](i requires 0 <= i < |items| => items[i]);
      assert a[..] == items;
      SortInPlace(a, KeyOf(sortField), sortOrder);
      sorted := a[..];
      InsertionSortPermutes(items, KeyOf(sortField), sortOrder);
      InsertionSortOrders(items, KeyOf(sortField), sortOrder);
    }
  }

  // ---------------------------------------------------------------------
  // The comparator
  // ---------------------------------------------------------------------

  /** `a[sortField] || ''`: the field's text, or the empty string when it is missing. */
  function Key(row: Row, f: SortField): string {
    match f
    case Title => row.item.title
    case Status => FrontStatusName(row.item.status)
    case Priority => BackendModel.PriorityName(row.item.priority)
    case CategoryField => row.category.GetOr("")
    case ForWhom => row.forWhom.GetOr("")
    case DueDate => row.item.dueDate.GetOr("")
    case Assignee => row.item.assignee.GetOr("")
    case CreatedAt => row.item.createdAt
  }

  /** The key of a field, as a function of the row. */
  function KeyOf(f: SortField): Row -> string {
    (row: Row) => Key(row, f)
  }

  /**
   * The comparator handed to `sort`: `order` when `a`'s key is greater
   * than `b`'s, `-order` otherwise, with `order` 1 for ascending and -1
   * for descending. It never answers 0, not even for equal keys.
   */
  function Compare(a: Row, b: Row, key: Row -> string, o: SortOrder): (r: int)
    ensures r == 1 || r == -1
    ensures o == Asc ==> (r == 1 <==> StrLess(key(b), key(a)))
    ensures o == Desc ==> (r == 1 <==> StrAtMost(key(a), key(b)))
  {
    var order := if o == Asc then 1 else -1;
    if StrLess(key(b), key(a)) then order else -order
  }

  /** `a` comes no later than `b` in the direction `o`. */
  predicate KeyAtMost(a: Row, b: Row, key: Row -> string, o: SortOrder) {
    if o == Asc then StrAtMost(key(a), key(b)) else StrAtMost(key(b), key(a))
  }

  /** Keys ascending (for `Asc`) or descending (for `Desc`), ties allowed. */
  predicate Ordered(s: seq<Row>, key: Row -> string, o: SortOrder) {
    forall i :: 0 < i < |s| ==> KeyAtMost(s[i - 1], s[i], key, o)
  }

  /** An ordered sequence is ordered between any two positions, not only neighbours. */
  lemma {:induction false} OrderedPairwise(s: seq<Row>, key: Row -> string, o: SortOrder, i: nat, j: nat)
    requires Ordered(s, key, o) && i <= j < |s|
    ensures KeyAtMost(s[i], s[j], key, o)
    decreases j - i
  {
    if i == j {
      StrLessIrreflexive(key(s[i]));
    } else {
      OrderedPairwise(s, key, o, i + 1, j);
      if o == Asc {
        StrAtMostTransitive(key(s[i]), key(s[i + 1]), key(s[j]));
      } else {
        StrAtMostTransitive(key(s[j]), key(s[i + 1]), key(s[i]));
      }
    }
  }

  /** With distinct keys the order is strict: ascending or descending, as chosen. */
  lemma OrderedDistinctIsStrict(s: seq<Row>, key: Row -> string, o: SortOrder, i: nat, j: nat)
    requires Ordered(s, key, o) && i < j < |s| && key(s[i]) != key(s[j])
    ensures o == Asc ==> StrLess(key(s[i]), key(s[j]))
    ensures o == Desc ==> StrLess(key(s[j]), key(s[i]))
  {
    OrderedPairwise(s, key, o, i, j);
    StrLessTotal(key(s[i]), key(s[j]));
  }

  // ---------------------------------------------------------------------
  // The sort
  // ---------------------------------------------------------------------

  /**
   * One step of an insertion sort driven by `Compare`: `x` moves back past
   * every item the comparator puts after it.
   */
  function InsertByCompare(p: seq<Row>, x: Row, key: Row -> string, o: SortOrder): (r: seq<Row>)
    ensures |r| == |p| + 1
    ensures r[|r| - 1] == x || (p != [] && r[|r| - 1] == p[|p| - 1])
    decreases |p|
  {
    if p == [] || Compare(p[|p| - 1], x, key, o) < 0 then p + [x]
    else InsertByCompare(p[..|p| - 1], x, key, o) + [p[|p| - 1]]
  }

  /** Inserting adds `x` and loses nothing. */
  lemma {:induction false} InsertPermutes(p: seq<Row>, x: Row, key: Row -> string, o: SortOrder)
    ensures multiset(InsertByCompare(p, x, key, o)) == multiset(p) + multiset{x}
    decreases |p|
  {
    if p != [] && Compare(p[|p| - 1], x, key, o) > 0 {
      var init := p[..|p| - 1];
      InsertPermutes(init, x, key, o);
      assert p == init + [p[|p| - 1]];
    }
  }

  /** The table's order: the items inserted one by one from the left. */
  function InsertionSort(s: seq<Row>, key: Row -> string, o: SortOrder): (r: seq<Row>)
    ensures |r| == |s|
    decreases |s|
  {
    if s == [] then [] else InsertByCompare(InsertionSort(s[..|s| - 1], key, o), s[|s| - 1], key, o)
  }

  /** The sorted copy holds exactly the items given, each as often as given. */
  lemma {:induction false} InsertionSortPermutes(s: seq<Row>, key: Row -> string, o: SortOrder)
    ensures multiset(InsertionSort(s, key, o)) == multiset(s)
    decreases |s|
  {
    if s != [] {
      InsertionSortPermutes(s[..|s| - 1], key, o);
      InsertPermutes(InsertionSort(s[..|s| - 1], key, o), s[|s| - 1], key, o);
      assert s == s[..|s| - 1] + [s[|s| - 1]];
    }
  }

  /** Inserting into an ordered sequence keeps it ordered. */
  lemma {:induction false} InsertKeepsOrder(p: seq<Row>, x: Row, key: Row -> string, o: SortOrder)
    requires Ordered(p, key, o)
    ensures Ordered(InsertByCompare(p, x, key, o), key, o)
    decreases |p|
  {
    var last := if p == [] then x else p[|p| - 1];
    if p == [] || Compare(last, x, key, o) < 0 {
      if p != [] {
        if o == Desc {
          StrLessAsymmetric(key(x), key(last));
        }
        assert KeyAtMost(last, x, key, o);
      }
    } else {
      var init := p[..|p| - 1];
      assert forall i :: 0 <= i < |init| ==> init[i] == p[i];
      InsertKeepsOrder(init, x, key, o);
      var q := InsertByCompare(init, x, key, o);
      var top := q[|q| - 1];
      if top == x {
        if o == Asc {
          StrLessAsymmetric(key(x), key(last));
        }
        assert KeyAtMost(x, last, key, o);
      } else {
        assert top == p[|p| - 2];
      }
      assert KeyAtMost(top, last, key, o);
    }
  }

  /** The sorted copy is ordered by the chosen key in the chosen direction. */
  lemma {:induction false} InsertionSortOrders(s: seq<Row>, key: Row -> string, o: SortOrder)
    ensures Ordered(InsertionSort(s, key, o), key, o)
    decreases |s|
  {
    if s != [] {
      InsertionSortOrders(s[..|s| - 1], key, o);
      InsertKeepsOrder(InsertionSort(s[..|s| - 1], key, o), s[|s| - 1], key, o);
    }
  }

  /**
   * `x` lands at `j` when the comparator puts every item from `j` on
   * after it and the item before `j`, if any, before it.
   */
  lemma {:induction false} InsertByCompareAt(p: seq<Row>, x: Row, key: Row -> string, o: SortOrder, j: nat)
    requires j <= |p|
    requires forall k :: j <= k < |p| ==> Compare(p[k], x, key, o) > 0
    requires j > 0 ==> Compare(p[j - 1], x, key, o) < 0
    ensures InsertByCompare(p, x, key, o) == p[..j] + [x] + p[j..]
    decreases |p|
  {
    if j < |p| {
      var init := p[..|p| - 1];
      assert InsertByCompare(p, x, key, o) == InsertByCompare(init, x, key, o) + [p[|p| - 1]] by {
        assert Compare(p[|p| - 1], x, key, o) > 0;
      }
      forall k | j <= k < |init| ensures Compare(init[k], x, key, o) > 0 {
        assert init[k] == p[k];
      }
      if j > 0 {
        assert init[j - 1] == p[j - 1];
      }
      InsertByCompareAt(init, x, key, o, j);
      InsertBeforeLast(p, x, j);
    } else {
      assert p[..j] == p && p[j..] == [];
    }
  }

  /** Sorting one more item of the input inserts it into the sorted prefix. */
  lemma SortStep(s: seq<Row>, i: nat, key: Row -> string, o: SortOrder)
    requires i < |s|
    ensures InsertionSort(s[..i], key, o) + s[i..] == InsertionSort(s[..i], key, o) + [s[i]] + s[i + 1..]
    ensures InsertionSort(s[..i + 1], key, o) == InsertByCompare(InsertionSort(s[..i], key, o), s[i], key, o)
  {
    assert s[i..] == [s[i]] + s[i + 1..];
    assert s[..i + 1][..i] == s[..i];
  }

  /** The copy is sorted in place, one item at a time. */
  method SortInPlace(a: array<Row>, key: Row -> string, o: SortOrder)
    modifies a
    ensures a[..] == InsertionSort(old(a[..]), key, o)
  {
    ghost var s := a[..];
    var i := 0;
    assert s[..0] == [];
    while i < a.Length
      invariant 0 <= i <= a.Length == |s|
      invariant a[..] == InsertionSort(s[..i], key, o) + s[i..]
    {
      InsertNext(a, i, key, o, s);
      i := i + 1;
    }
    assert s[..i] == s && s[i..] == [];
  }

  /** One step of the sort: the first `i` items are sorted, and the next one joins them. */
  method InsertNext(a: array<Row>, i: nat, key: Row -> string, o: SortOrder, ghost s: seq<Row>)
    requires i < a.Length == |s|
    requires a[..] == InsertionSort(s[..i], key, o) + s[i..]
    modifies a
    ensures a[..] == InsertionSort(s[..i + 1], key, o) + s[i + 1..]
  {
    SortStep(s, i, key, o);
    assert a[i] == s[i];
    SinkIntoPlace(a, i, key, o, InsertionSort(s[..i], key, o), s[i + 1..]);
  }

  /** The item at `i` moves back while the comparator puts the one before it after it. */
  method SinkIntoPlace(a: array<Row>, i: nat, key: Row -> string, o: SortOrder, ghost p: seq<Row>, ghost rest: seq<Row>)
    requires i < a.Length && |p| == i && a[..] == p + [a[i]] + rest
    modifies a
    ensures a[..] == InsertByCompare(p, old(a[i]), key, o) + rest
  {
    var x := a[i];
    assert p[..i] == p && p[i..] == [];
    var j := i;
    while j > 0 && Compare(a[j - 1], x, key, o) > 0
      invariant 0 <= j <= i
      invariant a[..] == p[..j] + [x] + p[j..] + rest
      invariant forall k :: j <= k < i ==> Compare(p[k], x, key, o) > 0
    {
      SwapBack(p, x, j, rest);
      ghost var before := a[..];
      assert before[j - 1] == p[j - 1] && before[j] == x;
      a[j - 1], a[j] := a[j], a[j - 1];
      assert a[..] == before[j - 1 := x][j := p[j - 1]];
      j := j - 1;
    }
    if j > 0 {
      ghost var q := a[..];
      assert q[j - 1] == p[j - 1];
      assert Compare(p[j - 1], x, key, o) < 0;
    }
    InsertByCompareAt(p, x, key, o, j);
  }

  // ---------------------------------------------------------------------
  // Row decorations
  // ---------------------------------------------------------------------

  /**
   * `s.replace('_', ' ')` with a string pattern: the first `_`, if any,
   * becomes a space and every other character stays.
   */
  function ReplaceFirstUnderscore(s: string): (r: string)
    ensures |r| == |s|
    ensures '_' !in s ==> r == s
    ensures forall k :: 0 <= k < |s| ==> r[k] == if s[k] == '_' && '_' !in s[..k] then ' ' else s[k]
  {
    var i := IndexOf(s, '_');
    if i == |s| then
      assert s[..i] == s;
      s
    else
      assert forall k :: i < k < |s| ==> s[..k][i] == '_';
      s[..i] + " " + s[i + 1..]
  }

  /** The text in a row's status pill: `overdue`, or the status with `_` read as a space. */
  function StatusLabel(row: Row, now: DateUtils.Instant): string {
    if KanbanBoard.IsOverdue(row.item, now) then "overdue"
    else ReplaceFirstUnderscore(FrontStatusName(row.item.status))
  }

  /** The four labels of items that are not overdue, and no label for a done item is `overdue`. */
  lemma StatusLabels(row: Row, now: DateUtils.Instant)
    ensures KanbanBoard.IsOverdue(row.item, now) ==> StatusLabel(row, now) == "overdue"
    ensures !KanbanBoard.IsOverdue(row.item, now) ==>
      StatusLabel(row, now) == (match row.item.status
        case Todo => "todo"
        case InProgress => "in progress"
        case Review => "review"
        case Done => "done")
    ensures row.item.status == Done ==> StatusLabel(row, now) == "done"
  {
    match row.item.status
    case InProgress => InProgressLabel();
    case Todo => assert '_' !in "todo";
    case Review => assert '_' !in "review";
    case Done => assert '_' !in "done";
  }

  /** `in_progress` reads as `in progress`. */
  lemma InProgressLabel()
    ensures ReplaceFirstUnderscore("in_progress") == "in progress"
  {
    var name := "in_progress";
    assert name[2] == '_' && '_' !in name[..2];
    assert IndexOf(name, '_') == 2;
    assert name[..2] + " " + name[3..] == "in progress";
  }

  /** The stripe colours of the four known people, by lower-case name. */
  const PersonColors: map<string, string> := map[
    "mohan" := "border-l-4 border-blue-600",
    "archana" := "border-l-4 border-pink-600",
    "arya" := "border-l-4 border-purple-600",
    "sairav" := "border-l-4 border-green-600"]

  /**
   * The keys a lower-cased name can reach on the prototype of the object
   * literal `colors`, with the text each value prints as in the template
   * literal that receives it: `constructor` is the function `Object`, and
   * `__proto__` is `Object.prototype`. Every other inherited member has an
   * upper-case letter in its name, so a lower-cased name never reaches it.
   */
  const InheritedKeys: map<string, string> := map[
    "constructor" := "function Object() { [native code] }",
    "__proto__" := "[object Object]"]

  /**
   * `getPersonColor`, as the class text it yields: the stripe for one of
   * the known names, whatever their case; the printed inherited member for
   * `constructor` and `__proto__`; nothing otherwise.
   */
  function PersonColor(person: Option<string>): (r: string)
    ensures person.None? || person.value == "" ==> r == ""
    ensures person.Some? && person.value != "" && Lower(person.value) in PersonColors ==>
      r == PersonColors[Lower(person.value)]
    ensures person.Some? && person.value != "" && Lower(person.value) in InheritedKeys ==>
      r == InheritedKeys[Lower(person.value)]
  {
    if person.None? || person.value == "" then ""
    else if Lower(person.value) in PersonColors then PersonColors[Lower(person.value)]
    else if Lower(person.value) in InheritedKeys then InheritedKeys[Lower(person.value)]
    else ""
  }

  /**
   * The lookup ignores case; a name gets a stripe exactly when its
   * lower-case form is one of the four known names, and some class text
   * exactly when it is one of those or an inherited key.
   */
  lemma PersonColorMeaning(name: string)
    ensures PersonColor(Some(name)) == PersonColor(Some(Lower(name)))
    ensures PersonColor(Some(name)) in PersonColors.Values <==> Lower(name) in PersonColors
    ensures PersonColor(Some(name)) != "" <==> Lower(name) in PersonColors || Lower(name) in InheritedKeys
  {
    LowerIdempotent(name);
    PersonColorsNonEmpty();
  }

  /** No known name is empty, no stripe is empty, and no inherited value reads as a stripe. */
  lemma PersonColorsNonEmpty()
    ensures "" !in PersonColors && "" !in InheritedKeys
    ensures forall k :: k in PersonColors ==> PersonColors[k] != ""
    ensures forall k :: k in InheritedKeys ==> InheritedKeys[k] != "" && InheritedKeys[k] !in PersonColors.Values
    ensures "" !in PersonColors.Values
  {
  }
}
