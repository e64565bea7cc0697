/** The data grid's projection engine: visible columns, conjunctive substring
    filters, the nulls-last column sort, and fixed-size pages; plus the view
    state (page, sort key and direction, filter texts) and its transitions. */
module DataGrid {
  import opened Wrappers
  import opened Seqs
  import opened Text
  import opened Contracts

  /** Rows per page; fixed in the grid. */
  const PageSize: nat := 10

  datatype Direction = Asc | Desc

  datatype SortState = SortState(key: string, direction: Direction)

  /** The grid's own state: current page, sort key and direction, and the filter text per column key. */
  datatype GridView = GridView(currentPage: int, sorting: SortState, filters: map<string, string>)

  /** Page 1, no sort key, ascending, no filters. */
  const InitialView: GridView := GridView(1, SortState("", Asc), map[])

  // ---------------------------------------------------------------------------
  // Visible columns
  // ---------------------------------------------------------------------------

  function VisibleColumns(columns: seq<Column>): seq<Column> {
    Filter(columns, IsVisible)
  }

  /** The visible columns are exactly the columns not marked `visible: false`, in declaration order. */
  lemma VisibleColumnsSpec(columns: seq<Column>, c: Column)
    ensures c in VisibleColumns(columns) <==> c in columns && IsVisible(c)
    ensures IsSubsequence(VisibleColumns(columns), columns)
  {
    FilterMembership(columns, IsVisible, c);
    FilterIsSubsequence(columns, IsVisible);
  }

  // ---------------------------------------------------------------------------
  // Filtering
  // ---------------------------------------------------------------------------

  /** The filter text typed for a column; a missing entry reads as empty. */
  function FilterText(filters: map<string, string>, key: string): string {
    if key in filters then filters[key] else ""
  }

  /** `String(value)`: the accessor's string, or "undefined" when absent. */
  function DisplayString(v: Option<string>): string {
    match v
    case Some(s) => s
    case None => "undefined"
  }

  /** One column's test: skipped when not filterable or when its filter text is empty. */
  predicate ColumnAdmits(col: Column, filters: map<string, string>, e: Event) {
    !IsFilterable(col) ||
    FilterText(filters, col.key) == "" ||
    Contains(Lower(DisplayString(Access(col.accessor, e))), Lower(FilterText(filters, col.key)))
  }

  /** `every` over the visible columns. */
  predicate RowMatches(visible: seq<Column>, filters: map<string, string>, e: Event) {
    forall i :: 0 <= i < |visible| ==> ColumnAdmits(visible[i], filters, e)
  }

  function Matches(columns: seq<Column>, filters: map<string, string>): Event -> bool {
    e => RowMatches(VisibleColumns(columns), filters, e)
  }

  /** The rows that pass every visible column's filter, in input order. */
  function FilterRows(data: seq<Event>, columns: seq<Column>, filters: map<string, string>): seq<Event> {
    Filter(data, Matches(columns, filters))
  }

  /** A column whose filter is in force: visible, filterable, with a non-empty filter text. */
  predicate ActiveFilter(c: Column, filters: map<string, string>) {
    IsVisible(c) && IsFilterable(c) && FilterText(filters, c.key) != ""
  }

  /** Independent statement of the filter: every column with a filter in force
      finds its lowered filter text inside the lowered accessor string. */
  ghost predicate PassesActiveFilters(columns: seq<Column>, filters: map<string, string>, e: Event) {
    forall c :: c in columns && ActiveFilter(c, filters) ==>
      Contains(Lower(DisplayString(Access(c.accessor, e))), Lower(FilterText(filters, c.key)))
  }

  lemma RowMatchesIff(columns: seq<Column>, filters: map<string, string>, e: Event)
    ensures RowMatches(VisibleColumns(columns), filters, e) <==> PassesActiveFilters(columns, filters, e)
  {
    var vis := VisibleColumns(columns);
    forall c | c in columns
      ensures c in vis <==> IsVisible(c)
    {
      VisibleColumnsSpec(columns, c);
    }
    if RowMatches(vis, filters, e) {
      forall c | c in columns && ActiveFilter(c, filters)
        ensures Contains(Lower(DisplayString(Access(c.accessor, e))), Lower(FilterText(filters, c.key)))
      {
        var i :| 0 <= i < |vis| && vis[i] == c;
        assert ColumnAdmits(vis[i], filters, e);
      }
    }
    if PassesActiveFilters(columns, filters, e) {
      forall i | 0 <= i < |vis|
        ensures ColumnAdmits(vis[i], filters, e)
      {
        VisibleColumnsSpec(columns, vis[i]);
      }
    }
  }

  /** A row survives filtering iff it is an input row passing every filter in force;
      it then survives as often as it occurs in the input. */
  lemma FilterRowsIff(data: seq<Event>, columns: seq<Column>, filters: map<string, string>, e: Event)
    ensures e in FilterRows(data, columns, filters) <==> e in data && PassesActiveFilters(columns, filters, e)
    ensures multiset(FilterRows(data, columns, filters))[e] ==
            if PassesActiveFilters(columns, filters, e) then multiset(data)[e] else 0
  {
    FilterMembership(data, Matches(columns, filters), e);
    FilterCount(data, Matches(columns, filters), e);
    RowMatchesIff(columns, filters, e);
  }

  /** Filtering keeps the input order: the result is a subsequence of the data. */
  lemma FilterRowsSubsequence(data: seq<Event>, columns: seq<Column>, filters: map<string, string>)
    ensures IsSubsequence(FilterRows(data, columns, filters), data)
  {
    FilterIsSubsequence(data, Matches(columns, filters));
  }

  /** Only filters in force matter: filter texts for hidden or non-filterable
      columns, or for keys no column has, change nothing. */
  lemma FilterRowsOnlyActiveKeysMatter(data: seq<Event>, columns: seq<Column>,
                                       f1: map<string, string>, f2: map<string, string>)
    requires forall c :: c in columns && IsVisible(c) && IsFilterable(c) ==> FilterText(f1, c.key) == FilterText(f2, c.key)
    ensures FilterRows(data, columns, f1) == FilterRows(data, columns, f2)
  {
    forall i | 0 <= i < |data|
      ensures Matches(columns, f1)(data[i]) == Matches(columns, f2)(data[i])
    {
      RowMatchesIff(columns, f1, data[i]);
      RowMatchesIff(columns, f2, data[i]);
    }
    FilterCongruent(data, Matches(columns, f1), Matches(columns, f2));
  }

  // ---------------------------------------------------------------------------
  // Sorting
  // ---------------------------------------------------------------------------

  /** The first visible column whose key is the sort key. */
  function ActiveColumn(visible: seq<Column>, key: string): (r: Option<Column>)
    ensures r.None? <==> forall i :: 0 <= i < |visible| ==> visible[i].key != key
    ensures r.Some? ==> exists i :: 0 <= i < |visible| && visible[i] == r.value && r.value.key == key &&
                                    forall j :: 0 <= j < i ==> visible[j].key != key
  {
    if |visible| == 0 then None
    else if visible[0].key == key then Some(visible[0])
    else
      var r := ActiveColumn(visible[1..], key);
      assert r.Some? ==> exists i :: 0 <= i < |visible[1..]| && visible[1..][i] == r.value &&
                                     forall j :: 0 <= j < i ==> visible[1..][j].key != key;
      if r.Some? then
        var i :| 0 <= i < |visible[1..]| && visible[1..][i] == r.value &&
                 forall j :: 0 <= j < i ==> visible[1..][j].key != key;
        assert visible[i + 1] == r.value;
        r
      else r
  }

  /** Two accessor values: absent values go last whatever the direction;
      present ones compare as strings, negated for descending order. */
  function CompareValues(a: Option<string>, b: Option<string>, dir: Direction): int {
    if a.None? && b.None? then 0
    else if a.None? then 1
    else if b.None? then -1
    else
      var result := Compare(a.value, b.value);
      if dir == Asc then result else -result
  }

  /** The row comparator; without an active column every pair compares equal. */
  function RowOrder(active: Option<Column>, dir: Direction): (Event, Event) -> int {
    (x: Event, y: Event) =>
      match active
      case None => 0
      case Some(c) => CompareValues(Access(c.accessor, x), Access(c.accessor, y), dir)
  }

  function SortRows(filtered: seq<Event>, columns: seq<Column>, sorting: SortState): seq<Event> {
    SortBy(filtered, RowOrder(ActiveColumn(VisibleColumns(columns), sorting.key), sorting.direction))
  }

  /** Absent values sort after present ones in both directions; two absent values tie. */
  lemma NullsLast(a: string, dir: Direction)
    ensures CompareValues(None, Some(a), dir) == 1
    ensures CompareValues(Some(a), None, dir) == -1
    ensures CompareValues(None, None, dir) == 0
  {
  }

  /** For present values, descending is exactly the negation of ascending, and ascending is string order. */
  lemma DescendingNegatesAscending(a: string, b: string)
    ensures CompareValues(Some(a), Some(b), Desc) == -CompareValues(Some(a), Some(b), Asc)
    ensures CompareValues(Some(a), Some(b), Asc) == Compare(a, b)
  {
  }

  lemma CompareValuesFlip(a: Option<string>, b: Option<string>, dir: Direction)
    ensures CompareValues(a, b, dir) > 0 <==> CompareValues(b, a, dir) < 0
  {
    if a.Some? && b.Some? {
      CompareFlip(a.value, b.value);
    }
  }

  lemma CompareValuesTransitive(a: Option<string>, b: Option<string>, c: Option<string>, dir: Direction)
    requires CompareValues(a, b, dir) <= 0 && CompareValues(b, c, dir) <= 0
    ensures CompareValues(a, c, dir) <= 0
  {
    if a.Some? && b.Some? && c.Some? {
      if dir == Asc {
        CompareTransitive(a.value, b.value, c.value);
      } else {
        CompareFlip(a.value, b.value);
        CompareFlip(b.value, c.value);
        CompareFlip(a.value, c.value);
        CompareTransitive(c.value, b.value, a.value);
      }
    }
  }

  /** The row comparator is a consistent total preorder, as `Array.prototype.sort` requires. */
  lemma RowOrderIsTotalPreorder(active: Option<Column>, dir: Direction)
    ensures TotalPreorder(RowOrder(active, dir))
  {
    var cmp := RowOrder(active, dir);
    if active.Some? {
      var acc := active.value.accessor;
      forall x, y
        ensures cmp(x, y) > 0 <==> cmp(y, x) < 0
      {
        CompareValuesFlip(Access(acc, x), Access(acc, y), dir);
      }
      forall x, y, z | cmp(x, y) <= 0 && cmp(y, z) <= 0
        ensures cmp(x, z) <= 0
      {
        CompareValuesTransitive(Access(acc, x), Access(acc, y), Access(acc, z), dir);
      }
    }
  }

  /** The sorted rows are a permutation of the filtered rows. With no visible
      column under the sort key they keep their order; otherwise rows with an
      absent value come last, present values are in string order for `Asc` and
      reverse string order for `Desc`, and rows with equal values keep their
      relative order. */
  lemma SortRowsSpec(filtered: seq<Event>, columns: seq<Column>, sorting: SortState)
    ensures multiset(SortRows(filtered, columns, sorting)) == multiset(filtered)
    ensures ActiveColumn(VisibleColumns(columns), sorting.key).None? ==> SortRows(filtered, columns, sorting) == filtered
    ensures ActiveColumn(VisibleColumns(columns), sorting.key).Some? ==>
      var acc := ActiveColumn(VisibleColumns(columns), sorting.key).value.accessor;
      var r := SortRows(filtered, columns, sorting);
      forall i, j :: 0 <= i < j < |r| ==>
        (Access(acc, r[i]).None? ==> Access(acc, r[j]).None?) &&
        (Access(acc, r[i]).Some? && Access(acc, r[j]).Some? ==>
          (sorting.direction == Asc ==> Compare(Access(acc, r[i]).value, Access(acc, r[j]).value) <= 0) &&
          (sorting.direction == Desc ==> Compare(Access(acc, r[i]).value, Access(acc, r[j]).value) >= 0))
  {
    var active := ActiveColumn(VisibleColumns(columns), sorting.key);
    var cmp := RowOrder(active, sorting.direction);
    if active.None? {
      SortByAllEqual(filtered, cmp);
    } else {
      RowOrderIsTotalPreorder(active, sorting.direction);
      SortBySorted(filtered, cmp);
    }
  }

  /** Stability: rows the comparator ranks equal to `x` appear in the same order as in the filtered rows. */
  lemma SortRowsStable(filtered: seq<Event>, columns: seq<Column>, sorting: SortState, x: Event)
    ensures var cmp := RowOrder(ActiveColumn(VisibleColumns(columns), sorting.key), sorting.direction);
            Filter(SortRows(filtered, columns, sorting), EquivalentTo(cmp, x)) == Filter(filtered, EquivalentTo(cmp, x))
  {
    var active := ActiveColumn(VisibleColumns(columns), sorting.key);
    RowOrderIsTotalPreorder(active, sorting.direction);
    SortByStable(filtered, RowOrder(active, sorting.direction), x);
  }

  // ---------------------------------------------------------------------------
  // Pagination
  // ---------------------------------------------------------------------------

  /** `Math.ceil(n / PageSize)`, with no lower bound of 1. */
  function TotalPages(n: nat): nat {
    (n + PageSize - 1) / PageSize
  }

  /** `TotalPages` is the ceiling of `n / PageSize`: zero only for no rows,
      otherwise the least page count that holds every row. */
  lemma TotalPagesIsCeiling(n: nat)
    ensures TotalPages(n) == 0 <==> n == 0
    ensures n <= TotalPages(n) * PageSize
    ensures n > 0 ==> (TotalPages(n) - 1) * PageSize < n
  {
  }

  function Min(a: int, b: int): int {
    if a <= b then a else b
  }

  /** A `slice` bound: negative values count back from the end; the result lies in `0..len`. */
  function ClampIndex(i: int, len: nat): (k: nat)
    ensures k <= len
  {
    if i < 0 then (if len + i < 0 then 0 else len + i)
    else if i > len then len
    else i
  }

  /** `Array.prototype.slice(start, end)`. */
  function JsSlice<T>(s: seq<T>, start: int, end: int): seq<T> {
    var a := ClampIndex(start, |s|);
    var b := ClampIndex(end, |s|);
    if a < b then s[a..b] else []
  }

  /** The rows shown on page `page`. */
  function PageRows(sorted: seq<Event>, page: int): seq<Event> {
    JsSlice(sorted, (page - 1) * PageSize, page * PageSize)
  }

  /** From page 1 on, a page is the window `[(page-1)*10, page*10)` of the sorted rows,
      cut at the end: at most 10 rows, non-empty up to the last page, empty after it. */
  lemma PageRowsWindow(sorted: seq<Event>, page: int)
    requires page >= 1
    ensures PageRows(sorted, page) ==
            sorted[Min((page - 1) * PageSize, |sorted|)..Min(page * PageSize, |sorted|)]
    ensures |PageRows(sorted, page)| <= PageSize
    ensures page <= TotalPages(|sorted|) ==> |PageRows(sorted, page)| > 0
    ensures page > TotalPages(|sorted|) ==> PageRows(sorted, page) == []
  {
    TotalPagesIsCeiling(|sorted|);
  }

  /** Pages 1 through `k`, one after another. */
  function ConcatPages(sorted: seq<Event>, k: nat): seq<Event> {
    if k == 0 then [] else ConcatPages(sorted, k - 1) + PageRows(sorted, k)
  }

  lemma {:induction false} ConcatPagesPrefix(sorted: seq<Event>, k: nat)
    ensures ConcatPages(sorted, k) == sorted[..Min(k * PageSize, |sorted|)]
  {
    if k > 0 {
      ConcatPagesPrefix(sorted, k - 1);
      PageRowsWindow(sorted, k);
      var lo := Min((k - 1) * PageSize, |sorted|);
      var hi := Min(k * PageSize, |sorted|);
      assert sorted[..lo] + sorted[lo..hi] == sorted[..hi];
    }
  }

  /** Reading pages 1 to `TotalPages` in turn shows every sorted row once, in order. */
  lemma PagesReassemble(sorted: seq<Event>)
    ensures ConcatPages(sorted, TotalPages(|sorted|)) == sorted
  {
    ConcatPagesPrefix(sorted, TotalPages(|sorted|));
    TotalPagesIsCeiling(|sorted|);
  }

  // ---------------------------------------------------------------------------
  // View transitions
  // ---------------------------------------------------------------------------

  /** A header click: the current key toggles direction, another key becomes the key, ascending, on page 1. */
  function HandleSort(v: GridView, colKey: string): GridView {
    if colKey == v.sorting.key then
      v.(sorting := v.sorting.(direction := if v.sorting.direction == Asc then Desc else Asc))
    else
      v.(sorting := SortState(colKey, Asc), currentPage := 1)
  }

  /** Typing into a column's filter box. */
  function HandleFilterChange(v: GridView, colKey: string, value: string): GridView {
    v.(filters := v.filters[colKey := value])
  }

  function NextPage(v: GridView): GridView { v.(currentPage := v.currentPage + 1) }

  function PreviousPage(v: GridView): GridView { v.(currentPage := v.currentPage - 1) }

  /** The Next button is disabled only on the page equal to the page count. */
  predicate NextDisabled(v: GridView, totalPages: nat) { v.currentPage == totalPages }

  predicate PreviousDisabled(v: GridView) { v.currentPage == 1 }

  /** A sort request on the current key flips the direction and keeps the page;
      on any other key it selects that key ascending and returns to page 1.
      Filters are never touched, and two clicks on the current key restore the view. */
  lemma HandleSortSpec(v: GridView, colKey: string)
    ensures HandleSort(v, colKey).filters == v.filters
    ensures HandleSort(v, colKey).sorting.key == colKey
    ensures colKey == v.sorting.key ==>
              HandleSort(v, colKey).currentPage == v.currentPage &&
              HandleSort(v, colKey).sorting.direction != v.sorting.direction
    ensures colKey != v.sorting.key ==>
              HandleSort(v, colKey).currentPage == 1 && HandleSort(v, colKey).sorting.direction == Asc
    ensures colKey == v.sorting.key ==> HandleSort(HandleSort(v, colKey), colKey) == v
  {
  }

  /** A filter change sets that column's text and nothing else: other columns'
      texts, the sort and the page stay as they were. */
  lemma HandleFilterChangeSpec(v: GridView, colKey: string, value: string)
    ensures FilterText(HandleFilterChange(v, colKey, value).filters, colKey) == value
    ensures forall k :: k != colKey ==> FilterText(HandleFilterChange(v, colKey, value).filters, k) == FilterText(v.filters, k)
    ensures HandleFilterChange(v, colKey, value).sorting == v.sorting
    ensures HandleFilterChange(v, colKey, value).currentPage == v.currentPage
  {
  }

  /** What the user can do to the grid. The header is clickable only for sortable
      columns; a filter box is rendered only where `filterable` is explicitly true.
      Headers and filter boxes exist only for visible columns, so these inputs are
      a superset of the ones the grid can receive: a click or text on a hidden
      column is accepted here too. */
  datatype GridInput =
    | ClickHeader(column: Column)
    | TypeFilter(column: Column, text: string)
    | ClickNext
    | ClickPrevious

  function Step(v: GridView, input: GridInput, totalPages: nat): GridView {
    match input
    case ClickHeader(c) => if IsSortable(c) then HandleSort(v, c.key) else v
    case TypeFilter(c, text) => if c.filterable == Some(true) then HandleFilterChange(v, c.key, text) else v
    case ClickNext => if NextDisabled(v, totalPages) then v else NextPage(v)
    case ClickPrevious => if PreviousDisabled(v) then v else PreviousPage(v)
  }

  /** Because Previous is disabled on page 1, no sequence of inputs leaves page 1 behind downwards. */
  lemma StepKeepsPagePositive(v: GridView, input: GridInput, totalPages: nat)
    requires v.currentPage >= 1
    ensures Step(v, input, totalPages).currentPage >= 1
  {
  }

  /** With no matching rows there are zero pages, so Next stays enabled on page 1. */
  lemma NextEnabledWhenNothingMatches(v: GridView, filteredCount: nat)
    requires filteredCount == 0 && v.currentPage == 1
    ensures TotalPages(filteredCount) == 0
    ensures !NextDisabled(v, TotalPages(filteredCount))
    ensures Step(v, ClickNext, TotalPages(filteredCount)).currentPage == 2
  {
  }

  // ---------------------------------------------------------------------------
  // The whole projection
  // ---------------------------------------------------------------------------

  datatype Projection = Projection(
    visible: seq<Column>,
    filtered: seq<Event>,
    totalPages: nat,
    sorted: seq<Event>,
    pageRows: seq<Event>)

  /** Visible columns, then filter, page count, sort and the current page slice. */
  function Project(data: seq<Event>, columns: seq<Column>, v: GridView): Projection {
    var filtered := FilterRows(data, columns, v.filters);
    var sorted := SortRows(filtered, columns, v.sorting);
    Projection(VisibleColumns(columns), filtered, TotalPages(|filtered|), sorted, PageRows(sorted, v.currentPage))
  }

  /** The "No events found" view is chosen on the filtered count, not on the page slice. */
  predicate ShowsEmpty(p: Projection) { |p.filtered| == 0 }

  /** Every row on screen is an input row passing every filter in force; the page
      holds at most 10 rows; the empty view appears exactly when no row passes,
      which is also exactly when there are zero pages. */
  lemma ProjectSpec(data: seq<Event>, columns: seq<Column>, v: GridView)
    requires v.currentPage >= 1
    ensures var p := Project(data, columns, v);
            (forall i :: 0 <= i < |p.pageRows| ==>
               p.pageRows[i] in data && PassesActiveFilters(columns, v.filters, p.pageRows[i])) &&
            |p.pageRows| <= PageSize &&
            (ShowsEmpty(p) <==> forall e :: e in data ==> !PassesActiveFilters(columns, v.filters, e)) &&
            (p.totalPages == 0 <==> ShowsEmpty(p))
  {
    var p := Project(data, columns, v);
    PageRowsWindow(p.sorted, v.currentPage);
    ProjectRowsPass(data, columns, v);
    ProjectEmptyIff(data, columns, v);
  }

  /** Every row on the current page is an input row that passes the filters in force. */
  lemma ProjectRowsPass(data: seq<Event>, columns: seq<Column>, v: GridView)
    requires v.currentPage >= 1
    ensures var p := Project(data, columns, v);
            forall i :: 0 <= i < |p.pageRows| ==>
              p.pageRows[i] in data && PassesActiveFilters(columns, v.filters, p.pageRows[i])
  {
    var p := Project(data, columns, v);
    PageRowsWindow(p.sorted, v.currentPage);
    assert multiset(p.sorted) == multiset(p.filtered);
    forall i | 0 <= i < |p.pageRows|
      ensures p.pageRows[i] in data && PassesActiveFilters(columns, v.filters, p.pageRows[i])
    {
      var e := p.pageRows[i];
      assert e in p.sorted;
      assert e in multiset(p.filtered);
      FilterRowsIff(data, columns, v.filters, e);
    }
  }

  /** The empty view appears exactly when no input row passes, which is exactly when there are zero pages. */
  lemma ProjectEmptyIff(data: seq<Event>, columns: seq<Column>, v: GridView)
    ensures var p := Project(data, columns, v);
            (ShowsEmpty(p) <==> forall e :: e in data ==> !PassesActiveFilters(columns, v.filters, e)) &&
            (p.totalPages == 0 <==> ShowsEmpty(p))
  {
    var p := Project(data, columns, v);
    TotalPagesIsCeiling(|p.filtered|);
    if !ShowsEmpty(p) {
      FilterRowsIff(data, columns, v.filters, p.filtered[0]);
    }
    forall e | e in data && PassesActiveFilters(columns, v.filters, e)
      ensures !ShowsEmpty(p)
    {
      FilterRowsIff(data, columns, v.filters, e);
    }
  }
}
