/**
 The `pbDataTable` widget's controller: the state it keeps (`data`, `results`,
 `pagination`, `sortOptions`) next to the widget's bound `properties`, and what each
 handler does to that state.

 Every handler is a function from the old state to the new one. Where the widget would
 fire an HTTP request, the step returns the request instead. Where it would read
 `jsonData` (the bound data run through Angular's `filter` and `orderBy` filters), it
 applies `view`, a parameter standing for those filters.
 */
module DataTable {
  import opened JsValues
  import opened JsStrings
  import opened Paging
  import opened ContentRange
  import opened UrlParams

  /** A query-parameter value: a number, a string, or `undefined` (which `$http` leaves out of the URL). */
  datatype Value = Num(num: JsNum) | Str(str: string) | Undef

  /** The widget's bound properties. */
  datatype Properties<R> = Properties(
    sourceType: Option<string>,                  // `type`: "Variable" for client-side data
    pageSize: int,
    apiUrl: Option<string>,
    filter: Option<string>,
    params: Option<map<string, Value>>,          // extra query parameters of the caller
    sortColumns: Option<seq<string>>,            // None for null or undefined
    columnsKey: Option<seq<string>>,             // None for null or undefined
    selectedRowBound: bool,                      // `isBound('selectedRow')`
    selectedRow: Option<R>)

  /** Sort column (None for `undefined`) and direction (`true` for descending). */
  datatype SortOptions = SortOptions(property: Option<string>, direction: bool)

  /** The controller's state. */
  datatype Table<R> = Table(
    data: seq<R>,
    results: seq<R>,
    pagination: Pagination,
    sortOptions: SortOptions,
    properties: Properties<R>)

  /** `$filter('orderBy')($filter('filter')(data, filter), property, direction)`, left abstract. */
  type View<!R> = (seq<R>, Option<string>, SortOptions) -> seq<R>

  /** The request handed to `$http`: URL and query parameters. */
  datatype Request = Request(url: string, params: map<string, Value>)

  /** A handler's outcome: the new state and the request it fires, if any. */
  datatype Step<R> = Step(table: Table<R>, request: Option<Request>)

  /** The value the `properties.content` watch sees. */
  datatype Content<R> = Array(items: seq<R>) | NotArray

  /** `type === 'Variable'`: the rows come from bound data, not from a REST API. */
  predicate FromVariable<R>(p: Properties<R>) {
    p.sourceType == Some("Variable")
  }

  /** `isSelectable()`. */
  predicate IsSelectable<R>(p: Properties<R>) {
    p.selectedRowBound
  }

  /**
   The controller as constructed: sorted ascending on the first sort column (or on
   nothing), page 1 of 0 items, no data.
   */
  function Init<R>(p: Properties<R>): (t: Table<R>)
    ensures t.pagination == FirstPage(0) && t.data == [] && t.properties == p
    ensures t.sortOptions.property.Some? <==> p.sortColumns.Some? && |p.sortColumns.value| > 0
    ensures t.sortOptions.property.Some? ==> t.sortOptions.property.value == p.sortColumns.value[0]
    ensures !t.sortOptions.direction
  {
    var columns := OrElse(p.sortColumns, []);
    Table([], [], FirstPage(0), SortOptions(if |columns| > 0 then Some(columns[0]) else None, false), p)
  }

  /**
   `jsonData`: the data through the `filter` and `orderBy` filters. The filter is
   `properties.filter || undefined`, so an empty filter string filters nothing.
   */
  function JsonData<R>(t: Table<R>, view: View<R>): (rows: seq<R>)
    ensures TruthyString(t.properties.filter) ==> rows == view(t.data, t.properties.filter, t.sortOptions)
    ensures !TruthyString(t.properties.filter) ==> rows == view(t.data, None, t.sortOptions)
  {
    var filter := if TruthyString(t.properties.filter) then t.properties.filter else None;
    view(t.data, filter, t.sortOptions)
  }

  /** An empty filter string selects the same rows as no filter at all. */
  lemma EmptyFilterFiltersNothing<R>(t: Table<R>, view: View<R>)
    ensures JsonData(t.(properties := t.properties.(filter := Some(""))), view)
         == JsonData(t.(properties := t.properties.(filter := None)), view)
  {
  }

  /** `jsonData` depends on the data, the filter and the sort options only. */
  lemma JsonDataReads<R>(t: Table<R>, u: Table<R>, view: View<R>)
    requires t.data == u.data && t.properties.filter == u.properties.filter && t.sortOptions == u.sortOptions
    ensures JsonData(t, view) == JsonData(u, view)
  {
  }

  /**
   `currentPage - 1 || 0`: the zero-based page index sent as `p`. When the page number is
   missing or not a number (after a response without Content-Range) it is 0.
   */
  function PageIndex(currentPage: JsNum): (p: int)
    ensures currentPage.Int? ==> p == currentPage.n - 1
    ensures !currentPage.Int? ==> p == 0
  {
    var previous := currentPage.Plus(-1);
    if previous.Truthy() then previous.n else 0
  }

  /** The sort order sent as `o`: the property, a space, and `DESC` or `ASC`. */
  function SortSpec(so: SortOptions): (spec: string)
    requires so.property.Some?
    ensures so.property.value <= spec
    ensures ReadSortSpec(spec) == Some(so)
  {
    var prop := so.property.value;
    var spec := prop + " " + (if so.direction then "DESC" else "ASC");
    if so.direction then
      assert spec[|spec| - 5..] == " DESC";
      assert spec[..|spec| - 5] == prop;
      spec
    else
      assert spec[|spec| - 4..] == " ASC";
      assert spec[..|spec| - 4] == prop;
      assert |spec| >= 5 ==> spec[|spec| - 5..][1] == spec[|spec| - 4] == ' ';
      spec
  }

  /** Reads a sort order back: everything before the final ` DESC` or ` ASC` is the property. */
  function ReadSortSpec(spec: string): Option<SortOptions> {
    if |spec| >= 5 && spec[|spec| - 5..] == " DESC" then Some(SortOptions(Some(spec[..|spec| - 5]), true))
    else if |spec| >= 4 && spec[|spec| - 4..] == " ASC" then Some(SortOptions(Some(spec[..|spec| - 4]), false))
    else None
  }

  /** `properties.params || {}`. */
  function CallerParams<R>(p: Properties<R>): map<string, Value> {
    OrElse(p.params, map[])
  }

  /** `s: properties.filter`. */
  function FilterValue(filter: Option<string>): Value {
    if filter.Some? then Str(filter.value) else Undef
  }

  /** The parameter names the widget sets itself. */
  predicate IsWidgetKey(k: string) {
    k == "c" || k == "p" || k == "s" || k == "o"
  }

  /**
   `createRequest()`: the configured URL without its own `c`/`p` parameters, and the
   caller's parameters overlaid with the widget's: `c` the page size, `p` the zero-based
   page index, `s` the filter, and `o` the sort order when a sort column is set. The
   widget's values win over the caller's; every other caller parameter passes through.
   */
  function CreateRequest<R>(t: Table<R>): (r: Request)
    ensures r.url == RemoveHandledParams(t.properties.apiUrl)
    ensures "c" in r.params && r.params["c"] == Num(Int(t.properties.pageSize))
    ensures "p" in r.params && r.params["p"] == Num(Int(PageIndex(t.pagination.currentPage)))
    ensures "s" in r.params && r.params["s"] == FilterValue(t.properties.filter)
    ensures TruthyString(t.sortOptions.property) ==> "o" in r.params && r.params["o"] == Str(SortSpec(t.sortOptions))
    ensures !TruthyString(t.sortOptions.property) ==>
              ("o" in r.params <==> "o" in CallerParams(t.properties))
              && ("o" in r.params ==> r.params["o"] == CallerParams(t.properties)["o"])
    ensures forall k :: k in CallerParams(t.properties) && !IsWidgetKey(k) ==>
              k in r.params && r.params[k] == CallerParams(t.properties)[k]
    ensures r.params.Keys == CallerParams(t.properties).Keys + {"c", "p", "s"}
                             + (if TruthyString(t.sortOptions.property) then {"o"} else {})
  {
    var p := t.properties;
    var so := t.sortOptions;
    var own := map["c" := Num(Int(p.pageSize)), "p" := Num(Int(PageIndex(t.pagination.currentPage))), "s" := FilterValue(p.filter)];
    var widget := if TruthyString(so.property) then own["o" := Str(SortSpec(so))] else own;
    Request(RemoveHandledParams(p.apiUrl), CallerParams(p) + widget)
  }

  /**
   What `updateResults()` leaves behind: bound data shows the page of `jsonData` that the
   pagination names and sends nothing; a REST table sends the request `createRequest`
   builds from the state, exactly when an API URL is set.
   */
  ghost predicate InSync<R>(s: Step<R>, view: View<R>) {
    var t := s.table;
    && (FromVariable(t.properties) ==>
          s.request.None? && t.results == PageOf(JsonData(t, view), t.pagination.currentPage, t.properties.pageSize))
    && (!FromVariable(t.properties) ==> (s.request.Some? <==> TruthyString(t.properties.apiUrl)))
    && (s.request.Some? ==> s.request.value == CreateRequest(t))
  }

  /**
   `updateResults()`: with bound data, `results` becomes the current page of `jsonData`;
   otherwise, when an API URL is set, the request is fired and the state waits for the
   response. Nothing but `results` changes.
   */
  function UpdateResults<R>(t: Table<R>, view: View<R>): (s: Step<R>)
    ensures s.table == t.(results := s.table.results)
    ensures FromVariable(t.properties) ==> s.request.None?
    ensures FromVariable(t.properties) ==>
              s.table.results == PageOf(JsonData(t, view), t.pagination.currentPage, t.properties.pageSize)
    ensures !FromVariable(t.properties) ==> s.table == t
    ensures !FromVariable(t.properties) ==> (s.request.Some? <==> TruthyString(t.properties.apiUrl))
    ensures s.request.Some? ==> s.request.value == CreateRequest(t)
    ensures InSync(s, view)
  {
    if FromVariable(t.properties) then
      Step(t.(results := PageOf(JsonData(t, view), t.pagination.currentPage, t.properties.pageSize)), None)
    else if TruthyString(t.properties.apiUrl) then
      Step(t, Some(CreateRequest(t)))
    else
      Step(t, None)
  }

  /** The rows a REST page holds: page `p` (from 0) of `c` rows of the full result. */
  function ServerPage<T>(items: seq<T>, p: int, c: int): (r: seq<T>)
    requires p >= 0 && c >= 0
    ensures |r| <= c
  {
    var start := Min(p * c, |items|);
    items[start..Min(start + c, |items|)]
  }

  /**
   The two modes select the same rows: slicing page `n` of the data is what a server
   returns for the page index and page size the widget's request carries.
   */
  lemma ClientAndServerPagesAgree<R>(t: Table<R>, items: seq<R>)
    requires t.pagination.currentPage.Int? && t.pagination.currentPage.n >= 1
    requires t.properties.pageSize >= 0
    ensures var r := CreateRequest(t);
            PageOf(items, t.pagination.currentPage, t.properties.pageSize)
            == ServerPage(items, r.params["p"].num.n, r.params["c"].num.n)
  {
    var n := t.pagination.currentPage.n;
    var ps := t.properties.pageSize;
    var r := CreateRequest(t);
    assert r.params["p"].num.n == n - 1 && r.params["c"].num.n == ps;
    PageWindow(items, n, ps);
    var start := (n - 1) * ps;
    assert 0 <= start;
    if start >= |items| {
      assert Min(start, |items|) == |items|;
    }
  }

  /**
   `resetPaginationAndUpdateResults()`, run when the page size, API URL, filter or
   parameters change: back to page 1, with the length of the filtered data as total.
   */
  function ResetPagination<R>(t: Table<R>, view: View<R>): (s: Step<R>)
    ensures s.table.pagination == FirstPage(|JsonData(t, view)|)
    ensures s.table.data == t.data && s.table.sortOptions == t.sortOptions && s.table.properties == t.properties
    ensures !FromVariable(t.properties) ==> s.table.results == t.results
    ensures InSync(s, view)
  {
    UpdateResults(t.(pagination := FirstPage(|JsonData(t, view)|)), view)
  }

  /**
   After a reset, bound data shows its first `pageSize` rows, and a REST table asks for
   page index 0.
   */
  lemma ResetShowsFirstPage<R>(t: Table<R>, view: View<R>)
    requires t.properties.pageSize >= 0
    ensures var s := ResetPagination(t, view);
            var rows := JsonData(t, view);
            && (FromVariable(t.properties) ==> s.table.results == rows[..Min(t.properties.pageSize, |rows|)])
            && (s.request.Some? <==> !FromVariable(t.properties) && TruthyString(t.properties.apiUrl))
            && (s.request.Some? ==> s.request.value.params["p"] == Num(Int(0)))
  {
    var rows := JsonData(t, view);
    var reset := t.(pagination := FirstPage(|rows|));
    assert JsonData(reset, view) == rows;
    PageWindow(rows, 1, t.properties.pageSize);
  }

  /**
   The `properties.content` watch: anything but an array is ignored; an array becomes the
   data, and the table goes back to page 1 with the array's length (before filtering) as
   total.
   */
  function ContentChanged<R>(t: Table<R>, content: Content<R>, view: View<R>): (s: Step<R>)
    ensures content.NotArray? ==> s == Step(t, None)
    ensures content.Array? ==> s.table.data == content.items && s.table.pagination == FirstPage(|content.items|)
    ensures s.table.sortOptions == t.sortOptions && s.table.properties == t.properties
    ensures content.Array? && !FromVariable(t.properties) ==> s.table.results == t.results
    ensures content.Array? ==> InSync(s, view)
  {
    match content
    case NotArray => Step(t, None)
    case Array(items) => UpdateResults(t.(data := items, pagination := FirstPage(|items|)), view)
  }

  /** New array content with bound data shows the first `pageSize` rows of its view. */
  lemma ContentShowsFirstPage<R>(t: Table<R>, items: seq<R>, view: View<R>)
    requires FromVariable(t.properties) && t.properties.pageSize >= 0
    ensures var s := ContentChanged(t, Array(items), view);
            var rows := JsonData(t.(data := items), view);
            s.table.results == rows[..Min(t.properties.pageSize, |rows|)] && s.request.None?
  {
    var s := ContentChanged(t, Array(items), view);
    var rows := JsonData(t.(data := items), view);
    assert s.table.pagination.currentPage == Int(1);
    JsonDataReads(s.table, t.(data := items), view);
    PageWindow(rows, 1, t.properties.pageSize);
  }

  /** `selectRowHandler(row)`: records the row as `selectedRow` when the table is selectable. */
  function SelectRow<R>(t: Table<R>, row: R): (u: Table<R>)
    ensures IsSelectable(t.properties) ==> u.properties.selectedRow == Some(row)
    ensures !IsSelectable(t.properties) ==> u == t
    ensures u == t.(properties := t.properties.(selectedRow := u.properties.selectedRow))
  {
    if IsSelectable(t.properties) then t.(properties := t.properties.(selectedRow := Some(row))) else t
  }

  /** Selecting a row changes neither the rows shown nor the request the table sends. */
  lemma SelectionKeepsRequest<R>(t: Table<R>, row: R, view: View<R>)
    ensures var u := SelectRow(t, row);
            UpdateResults(u, view).request == UpdateResults(t, view).request
            && UpdateResults(u, view).table.results == UpdateResults(t, view).table.results
  {
    var u := SelectRow(t, row);
    assert JsonData(u, view) == JsonData(t, view);
  }

  /**
   `isColumnSortable(index)`: with bound data every column is; otherwise the column is
   when its key is among the sort columns. `None` when the widget would throw: the sort
   columns are an array but the column keys are null or undefined.
   */
  function IsColumnSortable<R>(p: Properties<R>, index: int): (r: Option<bool>)
    ensures r.None? <==> !FromVariable(p) && p.sortColumns.Some? && p.columnsKey.None?
    ensures r == Some(true) <==>
              FromVariable(p)
              || (p.sortColumns.Some? && p.columnsKey.Some? && 0 <= index < |p.columnsKey.value|
                  && p.columnsKey.value[index] in p.sortColumns.value)
  {
    if FromVariable(p) then Some(true)
    else if p.sortColumns.None? then Some(false)
    else if p.columnsKey.None? then None
    else
      var keys := p.columnsKey.value;
      if 0 <= index < |keys| then Some(IndexOf(p.sortColumns.value, keys[index]) > -1)
      else Some(false)
  }

  /** The `$http` success handler: the rows and the pagination parsed from Content-Range. */
  function ApplyResponse<R>(t: Table<R>, rows: seq<R>, contentRange: Option<string>): (u: Table<R>)
    ensures u.results == rows
    ensures contentRange.None? ==> u.pagination == Pagination(Undefined, Undefined)
    ensures contentRange.Some? ==> !u.pagination.currentPage.Undefined? && !u.pagination.total.Undefined?
    ensures u == t.(results := rows, pagination := u.pagination)
  {
    t.(results := rows, pagination := ParseContentRange(contentRange))
  }

  /**
   A response whose `Content-Range` is `s-e/t`, with digit strings `s` and `t` of values
   `start` and `count`, sets page number `start + 1` of `count` items.
   */
  lemma ResponseWithRange<R>(t: Table<R>, rows: seq<R>, h: string, first: string, last: string, total: string, start: nat, count: nat)
    requires |first| >= 1 && AllDigits(first) && DecimalValue(first) == start
    requires |total| >= 1 && AllDigits(total) && DecimalValue(total) == count
    requires '/' !in last
    requires h == first + "-" + last + "/" + total
    ensures ApplyResponse(t, rows, Some(h)) == t.(results := rows, pagination := Pagination(Int(start + 1), Int(count)))
  {
    ParseWellFormed(h, first, last, total, start, count);
  }

  /**
   After a response without Content-Range the page number is undefined, and the next
   request asks for page index 0 rather than a NaN.
   */
  lemma MissingRangeRequestsFirstPage<R>(t: Table<R>, rows: seq<R>, view: View<R>)
    requires !FromVariable(t.properties) && TruthyString(t.properties.apiUrl)
    ensures var s := UpdateResults(ApplyResponse(t, rows, None), view);
            s.request.Some? && s.request.value.params["p"] == Num(Int(0))
  {
  }

  /**
   A server that reports the page index it was asked for as the start of its
   `Content-Range` keeps the widget on the same page: the pagination comes back as the
   same page number with the server's total, and the next request asks for the same page.
   */
  lemma ResponseKeepsPage<R>(t: Table<R>, rows: seq<R>, last: nat, total: nat)
    requires t.pagination.currentPage.Int? && t.pagination.currentPage.n >= 1
    ensures var p := PageIndex(t.pagination.currentPage);
            p >= 0
            && var u := ApplyResponse(t, rows, Some(FormatContentRange(p, last, total)));
            && u.pagination == Pagination(t.pagination.currentPage, Int(total))
            && CreateRequest(u).params["p"] == CreateRequest(t).params["p"]
  {
    var p := PageIndex(t.pagination.currentPage);
    var u := ApplyResponse(t, rows, Some(FormatContentRange(p, last, total)));
    FormatThenParse(p, last, total);
    assert u.pagination.currentPage == t.pagination.currentPage;
  }

  /**
   `paginationHandler()`, after the pager has set the page number: the page is updated
   and the results follow it.
   */
  function ChangePage<R>(t: Table<R>, page: JsNum, view: View<R>): (s: Step<R>)
    ensures s.table.pagination == Pagination(page, t.pagination.total)
    ensures s.table.data == t.data && s.table.sortOptions == t.sortOptions && s.table.properties == t.properties
    ensures !FromVariable(t.properties) ==> s.table.results == t.results
    ensures InSync(s, view)
  {
    UpdateResults(t.(pagination := t.pagination.(currentPage := page)), view)
  }

  /** Going to page `n` asks a REST table for page index `n - 1`, and shows bound data's page `n`. */
  lemma ChangePageSelects<R>(t: Table<R>, n: int, view: View<R>)
    ensures var s := ChangePage(t, Int(n), view);
            && (s.request.Some? <==> !FromVariable(t.properties) && TruthyString(t.properties.apiUrl))
            && (s.request.Some? ==> s.request.value.params["p"] == Num(Int(n - 1)))
            && (FromVariable(t.properties) ==>
                  s.table.results == PageOf(JsonData(t, view), Int(n), t.properties.pageSize))
  {
    var u := t.(pagination := t.pagination.(currentPage := Int(n)));
    assert JsonData(u, view) == JsonData(t, view);
  }

  /**
   `sortHandler()`, after the table header has set the sort options: the results are
   fetched or recomputed in the new order.
   */
  function Sort<R>(t: Table<R>, so: SortOptions, view: View<R>): (s: Step<R>)
    ensures s.table.sortOptions == so
    ensures s.table.data == t.data && s.table.pagination == t.pagination && s.table.properties == t.properties
    ensures !FromVariable(t.properties) ==> s.table.results == t.results
    ensures InSync(s, view)
  {
    UpdateResults(t.(sortOptions := so), view)
  }

  /** Sorting a REST table on a column sends the order, from which column and direction read back. */
  lemma SortSendsOrder<R>(t: Table<R>, so: SortOptions, view: View<R>)
    requires !FromVariable(t.properties) && TruthyString(t.properties.apiUrl) && TruthyString(so.property)
    ensures var s := Sort(t, so, view);
            s.request.Some? && "o" in s.request.value.params
            && s.request.value.params["o"].Str?
            && ReadSortSpec(s.request.value.params["o"].str) == Some(so)
  {
  }
}
