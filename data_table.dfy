/** components/DataTable.tsx: the column layout (saved order, hidden columns, drag to
    reorder, widths), the search filter, paging and the sort toggle. */
module DataTable {
  import opened Types
  import opened JsText

  const RowsPerPage := 50
  const MinColumnWidth := 60
  const DefaultColumnWidth := 160

  // ---------------------------------------------------------------------------------
  // Saved column order
  // ---------------------------------------------------------------------------------

  /** The check a saved order passes: as many columns as headers, each one a header. */
  predicate AcceptsSavedOrder(saved: seq<string>, headers: seq<string>)
  {
    |saved| == |headers| && forall k :: 0 <= k < |saved| ==> saved[k] in headers
  }

  /** The column order after the layout is loaded: the saved order when it passes the
      check, the headers otherwise (`None` is a missing, unparsable or non-array entry). */
  function InitialOrder(saved: Option<seq<string>>, headers: seq<string>): (order: seq<string>)
    ensures order == headers || (saved.Some? && order == saved.value)
    ensures |order| == |headers|
    ensures forall k :: 0 <= k < |order| ==> order[k] in headers
  {
    if saved.Some? && AcceptsSavedOrder(saved.value, headers) then saved.value else headers
  }

  /** The check lets a saved order with a repeated column through, and the header it
      crowds out is then never shown. */
  lemma SavedOrderMayHideHeader()
    ensures AcceptsSavedOrder(["a", "a"], ["a", "b"])
    ensures "b" !in InitialOrder(Some(["a", "a"]), ["a", "b"])
  {
    assert ["a", "a"][1] == "a";
  }

  /** The check the comment beside it describes: also every header present. */
  predicate AcceptsSavedOrderFixed(saved: seq<string>, headers: seq<string>)
  {
    AcceptsSavedOrder(saved, headers) && forall k :: 0 <= k < |headers| ==> headers[k] in saved
  }

  /** With the corrected check the order holds exactly the headers. */
  function InitialOrderFixed(saved: Option<seq<string>>, headers: seq<string>): (order: seq<string>)
    ensures |order| == |headers|
    ensures forall c :: c in order <==> c in headers
  {
    if saved.Some? && AcceptsSavedOrderFixed(saved.value, headers) then saved.value else headers
  }

  /** The correction still adopts every rearrangement of the headers, which is all a
      dragged order can be. */
  lemma FixedAcceptsRearrangements(saved: seq<string>, headers: seq<string>)
    requires multiset(saved) == multiset(headers)
    ensures AcceptsSavedOrderFixed(saved, headers)
    ensures InitialOrderFixed(Some(saved), headers) == saved
  {
    assert |saved| == |multiset(saved)| == |multiset(headers)| == |headers|;
    forall k | 0 <= k < |saved| ensures saved[k] in headers {
      assert saved[k] in multiset(saved);
    }
    forall k | 0 <= k < |headers| ensures headers[k] in saved {
      assert headers[k] in multiset(headers);
    }
  }

  // ---------------------------------------------------------------------------------
  // Visible columns and the search filter
  // ---------------------------------------------------------------------------------

  function NotHidden(deleted: seq<string>): string -> bool
  {
    (c: string) => c !in deleted
  }

  /** `columnOrder.filter(col => !deletedColumns.includes(col))`. */
  function VisibleColumns(order: seq<string>, deleted: seq<string>): (visible: seq<string>)
    ensures forall c :: c in visible <==> c in order && c !in deleted
    ensures IsSubsequence(visible, order)
    ensures deleted == [] ==> visible == order
  {
    Filter(order, NotHidden(deleted))
  }

  /** Whether a row matches a non-blank query in the visible columns; the case-insensitive
      substring test itself is not part of this model. */
  type Matcher = (seq<string>, string, Row) -> bool

  function Matching(visible: seq<string>, query: string, matches: Matcher): Row -> bool
  {
    (row: Row) => matches(visible, query, row)
  }

  /** `filteredData`: every row for a blank query, the matching rows otherwise. */
  function FilteredData(data: seq<Row>, query: string, visible: seq<string>, matches: Matcher): (r: seq<Row>)
    ensures IsBlank(query) ==> r == data
    ensures IsSubsequence(r, data)
    ensures forall row :: row in r ==> row in data
  {
    TrimEmptyIffBlank(query);
    SubsequenceOfItself(data);
    if Trim(query) == [] then data else Filter(data, Matching(visible, query, matches))
  }

  // ---------------------------------------------------------------------------------
  // Pages
  // ---------------------------------------------------------------------------------

  function Min(a: int, b: int): int { if a < b then a else b }
  function Max(a: int, b: int): int { if a < b then b else a }

  /** `rows.slice(page * 50, page * 50 + 50)`. */
  function PageRows<T>(rows: seq<T>, page: int): (r: seq<T>)
    ensures |r| <= RowsPerPage
    ensures 0 <= page ==> r == rows[Min(page * RowsPerPage, |rows|)..Min(page * RowsPerPage + RowsPerPage, |rows|)]
  {
    Slice(rows, page * RowsPerPage, page * RowsPerPage + RowsPerPage)
  }

  /** `Math.ceil(count / 50)`. */
  function TotalPages(count: nat): (pages: nat)
    ensures count <= pages * RowsPerPage
    ensures pages > 0 ==> (pages - 1) * RowsPerPage < count
  {
    CeilDiv(count, RowsPerPage)
  }

  /** The first `k` pages, one after another. */
  function PagesUpTo<T>(rows: seq<T>, k: nat): seq<T>
  {
    if k == 0 then [] else PagesUpTo(rows, k - 1) + PageRows(rows, k - 1)
  }

  lemma {:induction false} PagesUpToPrefix<T>(rows: seq<T>, k: nat)
    ensures PagesUpTo(rows, k) == rows[..Min(k * RowsPerPage, |rows|)]
  {
    if k > 0 {
      PagesUpToPrefix(rows, k - 1);
      var a, b := Min((k - 1) * RowsPerPage, |rows|), Min(k * RowsPerPage, |rows|);
      assert rows[..a] + rows[a..b] == rows[..b];
    }
  }

  /** The pages from the first to the last hold every row once, in order, and every page
      but possibly the last is full. */
  lemma PagesCoverRows<T>(rows: seq<T>)
    ensures PagesUpTo(rows, TotalPages(|rows|)) == rows
    ensures forall p :: 0 <= p < TotalPages(|rows|) - 1 ==> |PageRows(rows, p)| == RowsPerPage
    ensures forall p :: p >= TotalPages(|rows|) ==> PageRows(rows, p) == []
  {
    PagesUpToPrefix(rows, TotalPages(|rows|));
    assert rows[..|rows|] == rows;
  }

  /** `Math.max(0, page - 1)`. */
  function PageBefore(page: int): (r: int)
    ensures r >= 0
    ensures page > 0 ==> r == page - 1
    ensures page <= 0 ==> r == 0
  {
    Max(0, page - 1)
  }

  /** `Math.min(totalPages - 1, page + 1)`. */
  function PageAfter(page: int, totalPages: nat): (r: int)
    ensures r <= totalPages - 1
    ensures page < totalPages - 1 ==> r == page + 1
    ensures page >= totalPages - 1 ==> r == totalPages - 1
  {
    Min(totalPages - 1, page + 1)
  }

  /** Once there is a page, both buttons keep the current page among the pages. */
  lemma PageButtonsStayInRange(page: int, totalPages: nat)
    requires 0 <= page < totalPages
    ensures 0 <= PageBefore(page) < totalPages
    ensures 0 <= PageAfter(page, totalPages) < totalPages
  {
  }

  /** With no rows the next-page button would move to page -1; it is only shown when there
      are at least two pages. */
  lemma NextPageWithoutRows(page: int)
    requires page >= 0
    ensures PageAfter(page, TotalPages(0)) == -1
  {
    assert TotalPages(0) == (RowsPerPage - 1) / RowsPerPage == 0;
  }

  // ---------------------------------------------------------------------------------
  // Sorting
  // ---------------------------------------------------------------------------------

  datatype Direction = Asc | Desc

  datatype SortState = SortState(column: Option<string>, direction: Direction)

  function Flip(d: Direction): Direction
  {
    if d == Asc then Desc else Asc
  }

  /** `handleSort`: a click on the sorted column reverses the direction; a click on
      another column sorts by it ascending. */
  function AfterSortClick(s: SortState, column: string): (r: SortState)
    ensures r.column == Some(column)
    ensures s.column == Some(column) ==> r.direction != s.direction
    ensures s.column != Some(column) ==> r.direction == Asc
  {
    if s.column == Some(column) then s.(direction := Flip(s.direction)) else SortState(Some(column), Asc)
  }

  /** Two clicks on the sorted column restore the sort; two clicks on another column sort
      by it descending. */
  lemma SortClickTwice(s: SortState, column: string)
    ensures s.column == Some(column) ==> AfterSortClick(AfterSortClick(s, column), column) == s
    ensures s.column != Some(column) ==> AfterSortClick(AfterSortClick(s, column), column) == SortState(Some(column), Desc)
  {
  }

  // ---------------------------------------------------------------------------------
  // Drag to reorder
  // ---------------------------------------------------------------------------------

  /** `copy.splice(from, 1)` followed by `copy.splice(to, 0, s[from])`. */
  function Moved<T>(s: seq<T>, from: nat, to: nat): (r: seq<T>)
    requires from < |s| && to < |s|
    ensures |r| == |s|
    ensures r[to] == s[from]
    ensures r[..to] + r[to + 1..] == s[..from] + s[from + 1..]
  {
    var rest := s[..from] + s[from + 1..];
    var r := rest[..to] + [s[from]] + rest[to..];
    assert |rest[..to]| == to;
    assert r[..to] == rest[..to] && r[to + 1..] == rest[to..];
    assert rest[..to] + rest[to..] == rest;
    r
  }

  /** Moving an element rearranges the sequence: the element lands at `to`, and only the
      elements between the two places shift by one. */
  lemma MovedSpec<T>(s: seq<T>, from: nat, to: nat)
    requires from < |s| && to < |s|
    ensures var r := Moved(s, from, to);
      && r[to] == s[from]
      && multiset(r) == multiset(s)
      && (from <= to ==> r == s[..from] + s[from + 1..to + 1] + [s[from]] + s[to + 1..])
      && (to < from ==> r == s[..to] + [s[from]] + s[to..from] + s[from + 1..])
  {
    var rest := s[..from] + s[from + 1..];
    assert s == s[..from] + [s[from]] + s[from + 1..];
    assert multiset(rest) + multiset{s[from]} == multiset(s);
    assert rest == rest[..to] + rest[to..];
    if from <= to {
      assert rest[..to] == s[..from] + s[from + 1..to + 1];
      assert rest[to..] == s[to + 1..];
    } else {
      assert rest[..to] == s[..to];
      assert rest[to..] == s[to..from] + s[from + 1..];
    }
  }

  /** Taking the moved element out again gives the sequence with it removed; every
      element of the result comes from the original. */
  lemma MovedRemoved<T>(s: seq<T>, from: nat, to: nat)
    requires from < |s| && to < |s|
    ensures var r := Moved(s, from, to); r[..to] + r[to + 1..] == s[..from] + s[from + 1..]
    ensures forall k :: 0 <= k < |s| ==> Moved(s, from, to)[k] in s
  {
    var rest := s[..from] + s[from + 1..];
    var r := Moved(s, from, to);
    assert r[..to] == rest[..to] && r[to + 1..] == rest[to..];
    assert rest[..to] + rest[to..] == rest;
    forall k | 0 <= k < |s| ensures r[k] in s {
      if k != to {
        var j := if k < to then k else k - 1;
        assert r[k] == rest[j];
        assert rest[j] == if j < from then s[j] else s[j + 1];
      }
    }
  }

  /** JavaScript truthiness of a column name held in state: `null` and `''` are false. */
  predicate IsSet(column: Option<string>)
  {
    column.Some? && column.value != ""
  }

  /** `handleDrop`'s new order: the dragged column taken out and put back at the index the
      target had, or the old order when nothing (or the target itself) is dragged or either
      column is missing. */
  function Dropped(order: seq<string>, dragged: Option<string>, target: string): (r: seq<string>)
    ensures multiset(r) == multiset(order)
  {
    if !IsSet(dragged) || dragged.value == target then order
    else
      var from, to := IndexOf(order, dragged.value), IndexOf(order, target);
      if from == -1 || to == -1 then order else MovedSpec(order, from, to); Moved(order, from, to)
  }

  /** The dragged column lands where the target was, and the other columns keep their
      relative order; the no-op cases leave the order alone. */
  lemma DropSpec(order: seq<string>, dragged: Option<string>, target: string)
    ensures var r := Dropped(order, dragged, target);
      && (!IsSet(dragged) || dragged.value == target || dragged.value !in order || target !in order ==> r == order)
      && (IsSet(dragged) && dragged.value != target && dragged.value in order && target in order ==>
           var from, to := IndexOf(order, dragged.value), IndexOf(order, target);
           && r[to] == dragged.value
           && r[..to] + r[to + 1..] == order[..from] + order[from + 1..])
  {
    if IsSet(dragged) && dragged.value != target && dragged.value in order && target in order {
      DropMoves(order, dragged.value, target);
    }
  }

  /** The case of `DropSpec` where a column is moved. */
  lemma DropMoves(order: seq<string>, dragged: string, target: string)
    requires dragged != "" && dragged != target && dragged in order && target in order
    ensures var r := Dropped(order, Some(dragged), target);
      var from, to := IndexOf(order, dragged), IndexOf(order, target);
      && r[to] == dragged
      && r[..to] + r[to + 1..] == order[..from] + order[from + 1..]
  {
    DroppedIsMoved(order, dragged, target);
  }

  /** With both columns present and different, `Dropped` is the move between their places. */
  lemma DroppedIsMoved(order: seq<string>, dragged: string, target: string)
    requires dragged != "" && dragged != target && dragged in order && target in order
    ensures var from, to := IndexOf(order, dragged), IndexOf(order, target);
      && 0 <= from < |order| && 0 <= to < |order|
      && Dropped(order, Some(dragged), target) == Moved(order, from, to)
  {
  }

  // ---------------------------------------------------------------------------------
  // Hidden columns and widths
  // ---------------------------------------------------------------------------------

  function OtherColumn(column: string): string -> bool
  {
    (c: string) => c != column
  }

  /** `handleUndoDelete`: every occurrence of the column removed from the hidden list. */
  function Restored(deleted: seq<string>, column: string): (r: seq<string>)
    ensures column !in r
    ensures forall c :: c != column ==> (c in r <==> c in deleted)
    ensures IsSubsequence(r, deleted)
  {
    Filter(deleted, OtherColumn(column))
  }

  /** Hiding a column and restoring it gives back the hidden list and so the visible
      columns. */
  lemma HideThenRestore(order: seq<string>, deleted: seq<string>, column: string)
    requires column !in deleted
    ensures Restored(deleted + [column], column) == deleted
    ensures VisibleColumns(order, Restored(deleted + [column], column)) == VisibleColumns(order, deleted)
    ensures column !in VisibleColumns(order, deleted + [column])
  {
    FilterAppend(deleted, column, OtherColumn(column));
  }

  /** `prev[column] || 160`: the stored width, or the default when there is none (or it
      is 0). The widths are a plain map, so a column named after an inherited object
      member (`constructor`, `toString`, ...) also gets the default here. */
  function BaseWidth(widths: map<string, int>, column: string): int
  {
    if column in widths && widths[column] != 0 then widths[column] else DefaultColumnWidth
  }

  /** `Math.max(60, base + movementX)`. */
  function ResizedWidth(widths: map<string, int>, column: string, movementX: int): (w: int)
    ensures w >= MinColumnWidth
    ensures w == BaseWidth(widths, column) + movementX || (w == MinColumnWidth && BaseWidth(widths, column) + movementX < MinColumnWidth)
  {
    Max(MinColumnWidth, BaseWidth(widths, column) + movementX)
  }

  /** Widths set by dragging never fall below the minimum, however the mouse moves. */
  lemma {:induction false} DraggedWidthsAtLeastMinimum(widths: map<string, int>, column: string, moves: seq<int>)
    requires moves != []
    ensures Resizes(widths, column, moves)[column] >= MinColumnWidth
  {
    if |moves| > 1 {
      DraggedWidthsAtLeastMinimum(widths, column, moves[..|moves| - 1]);
    }
  }

  /** The widths after a sequence of mouse movements while resizing one column. */
  function Resizes(widths: map<string, int>, column: string, moves: seq<int>): map<string, int>
  {
    if moves == [] then widths
    else
      var before := Resizes(widths, column, moves[..|moves| - 1]);
      before[column := ResizedWidth(before, column, moves[|moves| - 1])]
  }

  // ---------------------------------------------------------------------------------
  // The component's state
  // ---------------------------------------------------------------------------------

  datatype ContextMenu = ContextMenu(x: int, y: int, column: string)

  class DataTableState {
    var headers: seq<string>
    var columnOrder: seq<string>
    var deletedColumns: seq<string>
    var columnWidths: map<string, int>
    var searchQuery: string
    var currentPage: int
    var sort: SortState
    var draggedColumn: Option<string>
    var dragOverColumn: Option<string>
    var contextMenu: Option<ContextMenu>
    var resizingColumn: Option<string>

    /** The order holds as many columns as there are headers, each one a header. */
    predicate Valid()
      reads this
    {
      |columnOrder| == |headers| && forall k :: 0 <= k < |columnOrder| ==> columnOrder[k] in headers
    }

    constructor (headers: seq<string>)
      ensures this.headers == headers && columnOrder == headers && deletedColumns == [] && columnWidths == map[]
      ensures searchQuery == "" && currentPage == 0 && sort == SortState(None, Asc)
      ensures draggedColumn == None && dragOverColumn == None && contextMenu == None && resizingColumn == None
      ensures Valid()
    {
      this.headers := headers;
      columnOrder := headers;
      deletedColumns := [];
      columnWidths := map[];
      searchQuery := "";
      currentPage := 0;
      sort := SortState(None, Asc);
      draggedColumn := None;
      dragOverColumn := None;
      contextMenu := None;
      resizingColumn := None;
    }

    /** The layout effect, run on mount and again whenever the `headers` prop changes (the
        component is not re-created when the table is switched): the new headers, then saved
        hidden columns (when an array), saved widths (when an object) and the saved order
        (when it passes the check against the new headers); `None` is an entry that is
        missing or does not parse as that kind. */
    method LoadLayout(headers: seq<string>, savedDeleted: Option<seq<string>>, savedWidths: Option<map<string, int>>, savedOrder: Option<seq<string>>)
      modifies this`headers, this`deletedColumns, this`columnWidths, this`columnOrder
      ensures this.headers == headers
      ensures deletedColumns == if savedDeleted.Some? then savedDeleted.value else old(deletedColumns)
      ensures columnWidths == if savedWidths.Some? then savedWidths.value else old(columnWidths)
      ensures columnOrder == InitialOrder(savedOrder, headers)
      ensures Valid()
    {
      this.headers := headers;
      if savedDeleted.Some? {
        deletedColumns := savedDeleted.value;
      }
      if savedWidths.Some? {
        columnWidths := savedWidths.value;
      }
      if savedOrder.Some? && |savedOrder.value| == |headers| && forall k :: 0 <= k < |savedOrder.value| ==> savedOrder.value[k] in headers {
        columnOrder := savedOrder.value;
        return;
      }
      columnOrder := headers;
    }

    /** `handlePreviousPage`. */
    method PreviousPage()
      modifies this`currentPage
      ensures currentPage == PageBefore(old(currentPage))
    {
      currentPage := if currentPage - 1 > 0 then currentPage - 1 else 0;
    }

    /** `handleNextPage`, for the table's rows and search matcher. */
    method NextPage(data: seq<Row>, matches: Matcher)
      modifies this`currentPage
      ensures var total := TotalPages(|FilteredData(data, searchQuery, VisibleColumns(columnOrder, deletedColumns), matches)|);
        currentPage == PageAfter(old(currentPage), total)
    {
      var filtered := FilteredData(data, searchQuery, VisibleColumns(columnOrder, deletedColumns), matches);
      var totalPages := TotalPages(|filtered|);
      currentPage := if totalPages - 1 < currentPage + 1 then totalPages - 1 else currentPage + 1;
    }

    /** `handleSearchChange`. */
    method SearchChange(query: string)
      modifies this`searchQuery, this`currentPage
      ensures searchQuery == query && currentPage == 0
    {
      searchQuery := query;
      currentPage := 0;
    }

    /** `handleSort`. */
    method Sort(column: string)
      modifies this`sort, this`currentPage
      ensures sort == AfterSortClick(old(sort), column) && currentPage == 0
    {
      if sort.column == Some(column) {
        sort := sort.(direction := if sort.direction == Asc then Desc else Asc);
      } else {
        sort := SortState(Some(column), Asc);
      }
      currentPage := 0;
    }

    /** `handleDragStart`. */
    method DragStart(column: string)
      modifies this`draggedColumn
      ensures draggedColumn == Some(column)
    {
      draggedColumn := Some(column);
    }

    /** `handleDragOver`. */
    method DragOver(column: string)
      modifies this`dragOverColumn
      ensures dragOverColumn == Some(column)
    {
      dragOverColumn := Some(column);
    }

    /** `handleDragLeave`. */
    method DragLeave()
      modifies this`dragOverColumn
      ensures dragOverColumn == None
    {
      dragOverColumn := None;
    }

    /** `handleDrop`: move the dragged column to the target's place, then end the drag. */
    method Drop(targetColumn: string)
      requires Valid()
      modifies this`columnOrder, this`draggedColumn, this`dragOverColumn
      ensures columnOrder == Dropped(old(columnOrder), old(draggedColumn), targetColumn)
      ensures multiset(columnOrder) == multiset(old(columnOrder))
      ensures draggedColumn == None && dragOverColumn == None
      ensures Valid()
    {
      if !IsSet(draggedColumn) || draggedColumn.value == targetColumn {
        draggedColumn := None;
        dragOverColumn := None;
        return;
      }
      var draggedIndex := IndexOf(columnOrder, draggedColumn.value);
      var targetIndex := IndexOf(columnOrder, targetColumn);
      if draggedIndex == -1 || targetIndex == -1 {
        draggedColumn := None;
        dragOverColumn := None;
        return;
      }
      var newOrder := Moved(columnOrder, draggedIndex, targetIndex);
      MovedRemoved(columnOrder, draggedIndex, targetIndex);
      columnOrder := newOrder;
      draggedColumn := None;
      dragOverColumn := None;
    }

    /** `handleDragEnd`. */
    method DragEnd()
      modifies this`draggedColumn, this`dragOverColumn
      ensures draggedColumn == None && dragOverColumn == None
    {
      draggedColumn := None;
      dragOverColumn := None;
    }

    /** `handleContextMenu`. */
    method OpenContextMenu(x: int, y: int, column: string)
      modifies this`contextMenu
      ensures contextMenu == Some(ContextMenu(x, y, column))
    {
      contextMenu := Some(ContextMenu(x, y, column));
    }

    /** `handleDeleteColumn`: hide the menu's column by appending it to the hidden list. */
    method DeleteColumn()
      modifies this`deletedColumns, this`contextMenu
      ensures old(contextMenu).Some? ==> deletedColumns == old(deletedColumns) + [old(contextMenu).value.column] && contextMenu == None
      ensures old(contextMenu).None? ==> deletedColumns == old(deletedColumns) && contextMenu == None
    {
      if contextMenu.Some? {
        deletedColumns := deletedColumns + [contextMenu.value.column];
        contextMenu := None;
      }
    }

    /** `handleUndoDelete`. */
    method UndoDelete(column: string)
      modifies this`deletedColumns
      ensures deletedColumns == Restored(old(deletedColumns), column)
    {
      deletedColumns := Filter(deletedColumns, OtherColumn(column));
    }

    /** `handleCloseContextMenu`, also run on any click outside the menu. */
    method CloseContextMenu()
      modifies this`contextMenu
      ensures contextMenu == None
    {
      contextMenu := None;
    }

    /** `handleMouseDown` on a column's resize handle. */
    method MouseDown(column: string)
      modifies this`resizingColumn
      ensures resizingColumn == Some(column)
    {
      resizingColumn := Some(column);
    }

    /** The `mousemove` listener, installed only while a column is being resized. */
    method MouseMove(movementX: int)
      modifies this`columnWidths
      ensures IsSet(resizingColumn) ==>
        columnWidths == old(columnWidths)[resizingColumn.value := ResizedWidth(old(columnWidths), resizingColumn.value, movementX)]
      ensures !IsSet(resizingColumn) ==> columnWidths == old(columnWidths)
    {
      if IsSet(resizingColumn) {
        var column := resizingColumn.value;
        var base := if column in columnWidths && columnWidths[column] != 0 then columnWidths[column] else DefaultColumnWidth;
        columnWidths := columnWidths[column := if base + movementX > MinColumnWidth then base + movementX else MinColumnWidth];
      }
    }

    /** The `mouseup` listener. */
    method MouseUp()
      modifies this`resizingColumn
      ensures resizingColumn == None
    {
      resizingColumn := None;
    }
  }
}
