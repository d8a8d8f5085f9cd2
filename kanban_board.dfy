/**
 * The board view: its three columns, which column an item lands in, the
 * overdue test for a card, the priority order inside a column, what a
 * drag-and-drop sends to the server, and how many tag chips a card shows.
 */
module KanbanBoard {
  import opened Common
  import BackendModel
  import opened FrontendModel
  import DateUtils

  // ---------------------------------------------------------------------
  // Columns and drag-and-drop
  // ---------------------------------------------------------------------

  datatype BoardColumn = TodoColumn | OverdueColumn | DoneColumn

  /** The columns in the order the board draws them. */
  const Columns: seq<BoardColumn> := [TodoColumn, OverdueColumn, DoneColumn]

  function ColumnId(c: BoardColumn): string {
    match c
    case TodoColumn => "todo"
    case OverdueColumn => "overdue"
    case DoneColumn => "done"
  }

  /** The board has exactly three columns, `todo`, `overdue`, `done`, each once. */
  lemma ColumnsLayout(c: BoardColumn)
    ensures c in Columns
    ensures |Columns| == 3 && Columns[0] != Columns[1] && Columns[1] != Columns[2] && Columns[0] != Columns[2]
    ensures [ColumnId(Columns[0]), ColumnId(Columns[1]), ColumnId(Columns[2])] == ["todo", "overdue", "done"]
  {
  }

  /** The status update a drop asks for: the item's id and the new status text. */
  datatype StatusUpdate = StatusUpdate(itemId: string, status: string)

  /**
   * `handleDragEnd`: nothing for a drag dropped outside any column or onto
   * `overdue`; otherwise the destination column's id as the new status.
   */
  function DragEnd(draggableId: string, destination: Option<string>): (r: Option<StatusUpdate>)
    ensures r.None? <==> destination.None? || destination.value == "overdue"
    ensures r.Some? ==> r.value == StatusUpdate(draggableId, destination.value)
  {
    if destination.None? then None
    else if destination.value == "overdue" then None
    else Some(StatusUpdate(draggableId, destination.value))
  }

  /**
   * A drop onto one of the board's columns either does nothing (the
   * `overdue` column) or asks for a status the server's status patch
   * accepts.
   */
  lemma DropOntoColumn(draggableId: string, c: BoardColumn)
    ensures c == OverdueColumn <==> DragEnd(draggableId, Some(ColumnId(c))).None?
    ensures c != OverdueColumn ==>
      DragEnd(draggableId, Some(ColumnId(c))) == Some(StatusUpdate(draggableId, ColumnId(c)))
      && BackendModel.ParseStatus(ColumnId(c)).Some?
  {
  }

  // ---------------------------------------------------------------------
  // Overdue cards and column membership
  // ---------------------------------------------------------------------

  /**
   * A card's `isOverdue`: never for an item without a due date or one that
   * is done; otherwise whether the due date falls before today's midnight.
   */
  predicate IsOverdue(item: FrontItem, now: DateUtils.Instant) {
    if item.dueDate.None? || item.dueDate.value == "" || item.status == Done then false
    else DateUtils.IsOverdue(item.dueDate, now)
  }

  /** A done item is never overdue; for the others the test is the date utility's. */
  lemma IsOverdueMeaning(item: FrontItem, now: DateUtils.Instant)
    ensures item.status == Done ==> !IsOverdue(item, now)
    ensures item.status != Done ==> (IsOverdue(item, now) <==> DateUtils.IsOverdue(item.dueDate, now))
  {
  }

  /** The rule `getItemsByColumn` filters a column by. */
  function InColumn(c: BoardColumn, now: DateUtils.Instant): FrontItem -> bool {
    match c
    case OverdueColumn => (item: FrontItem) => item.status == Todo && IsOverdue(item, now)
    case TodoColumn => (item: FrontItem) => item.status == Todo && !IsOverdue(item, now)
    case DoneColumn => (item: FrontItem) => FrontStatusName(item.status) == ColumnId(DoneColumn)
  }

  /** Every `todo` or `done` item is in exactly one column. */
  lemma ExactlyOneColumn(item: FrontItem, now: DateUtils.Instant)
    requires item.status == Todo || item.status == Done
    ensures exists c :: InColumn(c, now)(item)
    ensures forall c, d :: InColumn(c, now)(item) && InColumn(d, now)(item) ==> c == d
  {
    if item.status == Done {
      assert InColumn(DoneColumn, now)(item);
    } else if IsOverdue(item, now) {
      assert InColumn(OverdueColumn, now)(item);
    } else {
      assert InColumn(TodoColumn, now)(item);
    }
  }

  /** Items `in_progress` or under `review` appear in no column. */
  lemma OtherStatusesInNoColumn(item: FrontItem, now: DateUtils.Instant)
    requires item.status == InProgress || item.status == Review
    ensures forall c :: !InColumn(c, now)(item)
  {
  }

  // ---------------------------------------------------------------------
  // Priority order
  // ---------------------------------------------------------------------

  /** `priorityOrder`: high first, then medium, then low. */
  function Rank(p: BackendModel.Priority): (r: nat)
    ensures r <= 2
    ensures r == 0 <==> p == BackendModel.High
    ensures r == 2 <==> p == BackendModel.Low
  {
    match p
    case High => 0
    case Medium => 1
    case Low => 2
  }

  function HasPriority(p: BackendModel.Priority): FrontItem -> bool {
    (item: FrontItem) => item.priority == p
  }

  /**
   * The unique stable sort by priority: the high items, then the medium
   * ones, then the low ones, each group in its original order.
   */
  function ByPriority(s: seq<FrontItem>): seq<FrontItem> {
    Filter(s, HasPriority(BackendModel.High)) + Filter(s, HasPriority(BackendModel.Medium)) + Filter(s, HasPriority(BackendModel.Low))
  }

  predicate RankSorted(s: seq<FrontItem>) {
    forall i, j :: 0 <= i < j < |s| ==> Rank(s[i].priority) <= Rank(s[j].priority)
  }

  /** Where each group sits in `ByPriority(s)`. */
  lemma ByPriorityLayout(s: seq<FrontItem>)
    ensures var h := |Filter(s, HasPriority(BackendModel.High))|;
      var hm := h + |Filter(s, HasPriority(BackendModel.Medium))|;
      var p := ByPriority(s);
      hm <= |p|
      && (forall k :: 0 <= k < h ==> p[k].priority == BackendModel.High)
      && (forall k :: h <= k < hm ==> p[k].priority == BackendModel.Medium)
      && (forall k :: hm <= k < |p| ==> p[k].priority == BackendModel.Low)
  {
  }

  /** The sorted column is ordered high, medium, low. */
  lemma ByPrioritySorted(s: seq<FrontItem>)
    ensures RankSorted(ByPriority(s))
  {
    ByPriorityLayout(s);
  }

  /** The sorted column holds the same items as many times as the input. */
  lemma {:induction false} ByPriorityPermutation(s: seq<FrontItem>)
    ensures multiset(ByPriority(s)) == multiset(s)
  {
    if s != [] {
      ByPriorityPermutation(s[1..]);
      assert s == [s[0]] + s[1..];
    }
  }

  /** Stability: the items of any one priority keep their input order. */
  lemma ByPriorityStable(s: seq<FrontItem>, p: BackendModel.Priority)
    ensures Filter(ByPriority(s), HasPriority(p)) == Filter(s, HasPriority(p))
  {
    var h := Filter(s, HasPriority(BackendModel.High));
    var m := Filter(s, HasPriority(BackendModel.Medium));
    var l := Filter(s, HasPriority(BackendModel.Low));
    GroupsOfPriority(s);
    NarrowGroups(h, m, l, p);
  }

  /** Narrowing the joined groups to one priority gives back that priority's group. */
  lemma NarrowGroups(h: seq<FrontItem>, m: seq<FrontItem>, l: seq<FrontItem>, p: BackendModel.Priority)
    requires AllOfPriority(h, BackendModel.High) && AllOfPriority(m, BackendModel.Medium)
    requires AllOfPriority(l, BackendModel.Low)
    ensures Filter(h + m + l, HasPriority(p))
         == match p case High => h case Medium => m case Low => l
  {
    FilterThree(h, m, l, HasPriority(p));
    GroupNarrow(h, BackendModel.High, p);
    GroupNarrow(m, BackendModel.Medium, p);
    GroupNarrow(l, BackendModel.Low, p);
    match p
    case High => assert h + [] + [] == h;
    case Medium => assert [] + m + [] == m;
    case Low => assert [] + [] + l == l;
  }

  /** Narrowing one priority group to a priority keeps all of it or none of it. */
  lemma GroupNarrow(group: seq<FrontItem>, g: BackendModel.Priority, p: BackendModel.Priority)
    requires AllOfPriority(group, g)
    ensures Filter(group, HasPriority(p)) == if g == p then group else []
  {
    if g == p {
      FilterAll(group, HasPriority(p));
    } else {
      FilterNone(group, HasPriority(p));
    }
  }

  /** Narrowing three joined groups narrows each of them. */
  lemma FilterThree(h: seq<FrontItem>, m: seq<FrontItem>, l: seq<FrontItem>, f: FrontItem -> bool)
    ensures Filter(h + m + l, f) == Filter(h, f) + Filter(m, f) + Filter(l, f)
  {
    FilterConcat(h + m, l, f);
    FilterConcat(h, m, f);
  }

  /** Sorting by priority keeps exactly the items it was given. */
  lemma ByPriorityMembers(s: seq<FrontItem>)
    ensures forall x :: x in ByPriority(s) <==> x in s
  {
  }

  /**
   * One step of an insertion sort by priority: `x` goes after the last
   * item of equal or higher priority, so ties keep their input order.
   */
  function InsertByRank(p: seq<FrontItem>, x: FrontItem): (r: seq<FrontItem>)
    ensures |r| == |p| + 1
    decreases |p|
  {
    if p == [] || Rank(p[|p| - 1].priority) <= Rank(x.priority) then p + [x]
    else InsertByRank(p[..|p| - 1], x) + [p[|p| - 1]]
  }

  /** Insertion sort by priority, adding the items one by one from the left. */
  function InsertionSort(s: seq<FrontItem>): (r: seq<FrontItem>)
    ensures |r| == |s|
    decreases |s|
  {
    if s == [] then [] else InsertByRank(InsertionSort(s[..|s| - 1]), s[|s| - 1])
  }

  /**
   * `x` lands at `j` when every item from `j` on has strictly lower
   * priority and the item before `j`, if any, does not.
   */
  lemma {:induction false} InsertByRankAt(p: seq<FrontItem>, x: FrontItem, j: nat)
    requires j <= |p|
    requires forall k :: j <= k < |p| ==> Rank(p[k].priority) > Rank(x.priority)
    requires j > 0 ==> Rank(p[j - 1].priority) <= Rank(x.priority)
    ensures InsertByRank(p, x) == p[..j] + [x] + p[j..]
    decreases |p|
  {
    if j < |p| {
      var init := p[..|p| - 1];
      assert forall k :: j <= k < |init| ==> init[k] == p[k];
      if j > 0 {
        assert init[j - 1] == p[j - 1];
      }
      InsertByRankAt(init, x, j);
      InsertBeforeLast(p, x, j);
    } else {
      assert p[..j] == p && p[j..] == [];
    }
  }

  predicate AllOfPriority(s: seq<FrontItem>, p: BackendModel.Priority) {
    forall k :: 0 <= k < |s| ==> s[k].priority == p
  }

  /** Inserting `x` into the groups `h + m + l` adds it at the end of its own group. */
  lemma InsertIntoGroups(h: seq<FrontItem>, m: seq<FrontItem>, l: seq<FrontItem>, x: FrontItem)
    requires AllOfPriority(h, BackendModel.High) && AllOfPriority(m, BackendModel.Medium)
    requires AllOfPriority(l, BackendModel.Low)
    ensures InsertByRank(h + m + l, x)
         == if x.priority == BackendModel.High then (h + [x]) + m + l
            else if x.priority == BackendModel.Medium then h + (m + [x]) + l
            else h + m + (l + [x])
  {
    var p := h + m + l;
    var r := Rank(x.priority);
    assert forall k :: 0 <= k < |h| ==> p[k] == h[k];
    assert forall k :: |h| <= k < |h| + |m| ==> p[k] == m[k - |h|];
    assert forall k :: |h| + |m| <= k < |p| ==> p[k] == l[k - |h| - |m|];
    var cut := if r == 0 then |h| else if r == 1 then |h| + |m| else |p|;
    InsertByRankAt(p, x, cut);
    SplitGroups(h, m, l, x);
  }

  /** Cutting `h + m + l` at a group boundary and putting `x` there. */
  lemma SplitGroups(h: seq<FrontItem>, m: seq<FrontItem>, l: seq<FrontItem>, x: FrontItem)
    ensures (h + m + l)[..|h|] + [x] + (h + m + l)[|h|..] == (h + [x]) + m + l
    ensures (h + m + l)[..|h| + |m|] + [x] + (h + m + l)[|h| + |m|..] == h + (m + [x]) + l
    ensures (h + m + l)[..|h + m + l|] + [x] + (h + m + l)[|h + m + l|..] == h + m + (l + [x])
  {
    var p := h + m + l;
    assert p[..|h|] == h && p[|h|..] == m + l;
    assert p[..|h| + |m|] == h + m && p[|h| + |m|..] == l;
    assert p[..|p|] == p && p[|p|..] == [];
  }

  /** Insertion sort by priority yields the high, medium and low groups in input order. */
  lemma {:induction false} InsertionSortIsByPriority(s: seq<FrontItem>)
    ensures InsertionSort(s) == ByPriority(s)
    decreases |s|
  {
    if s != [] {
      var t := s[..|s| - 1];
      var x := s[|s| - 1];
      var h := Filter(t, HasPriority(BackendModel.High));
      var m := Filter(t, HasPriority(BackendModel.Medium));
      var l := Filter(t, HasPriority(BackendModel.Low));
      InsertionSortIsByPriority(t);
      assert InsertionSort(s) == InsertByRank(h + m + l, x);
      GroupsOfPriority(t);
      InsertIntoGroups(h, m, l, x);
      assert s == t + [x];
      ByPrioritySnoc(t, x);
    }
  }

  /** Appending `x` to the input appends it to the end of its own group. */
  lemma ByPrioritySnoc(t: seq<FrontItem>, x: FrontItem)
    ensures var h := Filter(t, HasPriority(BackendModel.High));
            var m := Filter(t, HasPriority(BackendModel.Medium));
            var l := Filter(t, HasPriority(BackendModel.Low));
            (ByPriority(t + [x])
             == if x.priority == BackendModel.High then (h + [x]) + m + l
                else if x.priority == BackendModel.Medium then h + (m + [x]) + l
                else h + m + (l + [x]))
  {
    FilterSnoc(t, x, HasPriority(BackendModel.High));
    FilterSnoc(t, x, HasPriority(BackendModel.Medium));
    FilterSnoc(t, x, HasPriority(BackendModel.Low));
  }

  /** Each priority group holds only items of that priority. */
  lemma GroupsOfPriority(t: seq<FrontItem>)
    ensures AllOfPriority(Filter(t, HasPriority(BackendModel.High)), BackendModel.High)
    ensures AllOfPriority(Filter(t, HasPriority(BackendModel.Medium)), BackendModel.Medium)
    ensures AllOfPriority(Filter(t, HasPriority(BackendModel.Low)), BackendModel.Low)
  {
  }

  /**
   * `sortByPriority`: sorts the column's array in place, high first,
   * keeping the input order among items of equal priority.
   */
  method SortByPriority(a: array<FrontItem>)
    modifies a
    ensures a[..] == InsertionSort(old(a[..]))
  {
    ghost var s := a[..];
    var i := 0;
    assert s[..0] == [];
    while i < a.Length
      invariant 0 <= i <= a.Length == |s|
      invariant a[..] == InsertionSort(s[..i]) + s[i..]
    {
      SortStep(s, i);
      SinkIntoPlace(a, i, InsertionSort(s[..i]), s[i + 1..]);
      i := i + 1;
    }
    assert s[..i] == s && s[i..] == [];
  }

  /** Sorting one more item of the input inserts it into the sorted prefix. */
  lemma SortStep(s: seq<FrontItem>, i: nat)
    requires i < |s|
    ensures InsertionSort(s[..i]) + s[i..] == InsertionSort(s[..i]) + [s[i]] + s[i + 1..]
    ensures InsertionSort(s[..i + 1]) == InsertByRank(InsertionSort(s[..i]), s[i])
  {
    assert s[i..] == [s[i]] + s[i + 1..];
    assert s[..i + 1][..i] == s[..i];
  }

  /**
   * One pass of the sort: the item at `i` moves back past every item of
   * strictly lower priority before it.
   */
  method SinkIntoPlace(a: array<FrontItem>, i: nat, ghost p: seq<FrontItem>, ghost rest: seq<FrontItem>)
    requires i < a.Length && |p| == i && a[..] == p + [a[i]] + rest
    modifies a
    ensures a[..] == InsertByRank(p, old(a[i])) + rest
  {
    var x := a[i];
    assert p[..i] == p && p[i..] == [];
    var j := i;
    while j > 0 && Rank(a[j - 1].priority) > Rank(x.priority)
      invariant 0 <= j <= i
      invariant a[..] == p[..j] + [x] + p[j..] + rest
      invariant forall k :: j <= k < i ==> Rank(p[k].priority) > Rank(x.priority)
    {
      SwapBack(p, x, j, rest);
      ghost var before := a[..];
      a[j - 1], a[j] := a[j], a[j - 1];
      assert a[..] == before[j - 1 := x][j := p[j - 1]];
      j := j - 1;
    }
    ghost var q := a[..];
    if j > 0 {
      assert q[j - 1] == p[j - 1];
    }
    InsertByRankAt(p, x, j);
  }

  // ---------------------------------------------------------------------
  // Columns as the board shows them
  // ---------------------------------------------------------------------

  /**
   * `getItemsByColumn`: the items of a column, in priority order. The
   * filter builds a fresh array, which the sort then reorders in place.
   */
  method GetItemsByColumn(items: seq<FrontItem>, c: BoardColumn, now: DateUtils.Instant)
    returns (column: seq<FrontItem>)
    ensures column == ByPriority(Filter(items, InColumn(c, now)))
    ensures forall x :: x in column <==> x in items && InColumn(c, now)(x)
    ensures RankSorted(column)
  {
    var filtered := Filter(items, InColumn(c, now));
    var a := new FrontItem[|filtered|](i requires 0 <= i < |filtered| => filtered[i]);
    assert a[..] == filtered;
    SortByPriority(a);
    column := a[..];
    InsertionSortIsByPriority(filtered);
    ByPrioritySorted(filtered);
    ByPriorityMembers(filtered);
  }

  // ---------------------------------------------------------------------
  // Tag chips on a card
  // ---------------------------------------------------------------------

  /** The tags a card shows: at most the first two. */
  function ShownTags(tags: seq<string>): (r: seq<string>)
    ensures |r| == if |tags| < 2 then |tags| else 2
    ensures r == tags[..|r|]
  {
    if |tags| <= 2 then tags else tags[..2]
  }

  /** The `+n` chip after the shown tags, when some are hidden. */
  function MoreTagsChip(tags: seq<string>): Option<string> {
    if |tags| > 2 then Some("+" + NatToString(|tags| - 2)) else None
  }

  /** The shown tags and the number on the `+n` chip account for every tag. */
  lemma TagChipsCountAll(tags: seq<string>)
    ensures MoreTagsChip(tags).None? <==> |tags| <= 2
    ensures MoreTagsChip(tags).None? ==> ShownTags(tags) == tags
    ensures MoreTagsChip(tags).Some? ==>
      var chip := MoreTagsChip(tags).value;
      chip[0] == '+' && IsDigits(chip[1..]) && |ShownTags(tags)| + DigitsValue(chip[1..]) == |tags|
  {
    if |tags| > 2 {
      var chip := MoreTagsChip(tags).value;
      assert chip[1..] == NatToString(|tags| - 2);
      DigitsValueOfNatToString(|tags| - 2);
    }
  }
}
