# Bonita data-table widget and page toolbox, modelled in Dafny

This project models two pieces of a Bonita UI Designer export:

- **`pbDataTable`**, the data-table widget's controller. It shows rows either from bound
  data (`type === 'Variable'`), cut into pages on the client, or from a REST API. For a
  REST API it sends the page size `c`, the zero-based page index `p`, the filter `s` and
  the sort order `o` as query parameters. It reads the pagination back from the
  response's `Content-Range: <start>-<end>/<total>` header.
- **`htmlEntities`**, from the page's toolbox script. It escapes `&`, `<`, `>` and `"` as
  HTML entities.

The model is a set of pure functions over immutable data:

| module | file | models |
|---|---|---|
| `JsValues` | `js_values.dfy` | `null`/`undefined` as `Option`; numbers as `JsNum` (undefined, NaN or an integer); truthiness; `indexOf`; `slice` |
| `JsStrings` | `js_strings.dfy` | `split` on one character; `parseInt(s, 10)`; decimal notation |
| `Toolbox` | `toolbox.dfy` | `htmlEntities` as the toolbox's chain of four global replacements, proved equal to a one-pass escaper |
| `Paging` | `paging.dfy` | the `pagination` record; the page `updateResultsFromJson` slices out |
| `ContentRange` | `content_range.dfy` | `parseContentRange` |
| `UrlParams` | `url_params.dfy` | `removeHandledParams`; each global regular-expression replace is a left-to-right scan that resumes after each match |
| `DataTable` | `data_table.dfy` | the controller state and its handlers: `createRequest`, `updateResults`, the two pagination resets, `selectRowHandler`, `isColumnSortable`, the pager and sort handlers, and the `$http` success handler |

**Handlers as pure functions.** Each handler is a function from the old `Table` state to
the new one.

- If the widget would call `$http`, the function returns the `Request` it would send, in
  a `Step`.
- The `jsonData` getter applies Angular's `filter` and `orderBy` filters. The model
  passes these in as a parameter `view`.

**Behaviour worth noting:**

- **Query-parameter names.** The widget sends the page size as `c`, the page index as `p`,
  the filter as `s` and the sort order as `o`.
- **Page number can be missing or NaN.**
  - A response without a `Content-Range` header sets `pagination` to `{}`, so the page
    number becomes undefined. The next request then sends `p = 0`.
  - A header with no number before its `-` gives a NaN page number.
  - So the page number is not always an integer ≥ 1.
- **`total` after a reset.** A configuration reset takes `total` from the filtered data
  (`jsonData.length`). New content takes it from the unfiltered array (`data.length`).

## Model

Source paths are relative to the repository root.

| member | source | states |
|---|---|---|
| Toolbox.HtmlEntities | src/test/resources/ProjectBonita/web_page/0096d371-549a-4210-a02c-2f915198a374/assets/js/toolbox.js:1-7 | Gives `null` exactly when the input is absent or empty. Otherwise the result has no raw `<`, `>` or `"`, every `&` in it opens one of the four entities, it is the per-character escape of the input, and unescaping it gives the input back |
| Toolbox.ChainIsEscape | src/test/resources/ProjectBonita/web_page/0096d371-549a-4210-a02c-2f915198a374/assets/js/toolbox.js:3 | The four global replacements, in the toolbox's order with `&` first, equal escaping each character once. No entity a replacement inserts is escaped again |
| Toolbox.ReplaceAll | src/test/resources/ProjectBonita/web_page/0096d371-549a-4210-a02c-2f915198a374/assets/js/toolbox.js:3 | One global replacement leaves no occurrence of the replaced character, unless the entity holds it. It leaves a string without the character unchanged |
| Toolbox.ReplaceKeepsAbsent | src/test/resources/ProjectBonita/web_page/0096d371-549a-4210-a02c-2f915198a374/assets/js/toolbox.js:3 | A global replacement introduces no character that neither the string nor the entity held |
| Toolbox.ReplaceChain | src/test/resources/ProjectBonita/web_page/0096d371-549a-4210-a02c-2f915198a374/assets/js/toolbox.js:3 | After the four replacements, no raw `<`, `>` or `"` remains. `ChainIsEscape` shows the chain equals the per-character escape |
| Toolbox.Escape | src/test/resources/ProjectBonita/web_page/0096d371-549a-4210-a02c-2f915198a374/assets/js/toolbox.js:3 | The escaped text has no raw `<`, `>` or `"`, every `&` in it begins an entity, and it is never shorter than the input |
| Toolbox.EscapeLength | src/test/resources/ProjectBonita/web_page/0096d371-549a-4210-a02c-2f915198a374/assets/js/toolbox.js:3 | Output length = input length, plus 4 per `&`, 3 per `<` and per `>`, and 5 per `"` |
| Toolbox.UnescapeEscape | src/test/resources/ProjectBonita/web_page/0096d371-549a-4210-a02c-2f915198a374/assets/js/toolbox.js:3 | Decoding the four entities in the escaped text gives the original string back |
| Toolbox.EscapeInjective | src/test/resources/ProjectBonita/web_page/0096d371-549a-4210-a02c-2f915198a374/assets/js/toolbox.js:3 | Two strings with the same escaped form are equal |
| Toolbox.EscapePlain | src/test/resources/ProjectBonita/web_page/0096d371-549a-4210-a02c-2f915198a374/assets/js/toolbox.js:3 | A string without `&`, `<`, `>` or `"` comes back unchanged |
| Toolbox.EscapeConcat | src/test/resources/ProjectBonita/web_page/0096d371-549a-4210-a02c-2f915198a374/assets/js/toolbox.js:3 | Escaping works piece by piece: escape(a + b) = escape(a) + escape(b) |
| JsValues.IndexOf | src/test/resources/ProjectBonita/web_widgets/pbDataTable/pbDataTable.js:118 | `indexOf` gives -1 exactly when the element is absent. Otherwise it gives the first position holding the element |
| JsValues.Slice | src/test/resources/ProjectBonita/web_widgets/pbDataTable/pbDataTable.js:97 | `slice` gives a contiguous run of the sequence, no longer than it. With non-negative bounds it is the window between them, cut at the end, and empty when the end does not pass the start. A missing or NaN start reads as 0, and a NaN end selects nothing. Without an end, the slice runs to the end of the sequence |
| JsValues.RelativeIndex | src/test/resources/ProjectBonita/web_widgets/pbDataTable/pbDataTable.js:97 | A `slice` bound that is non-negative is cut at the length. A negative one counts back from the end, and goes no lower than 0 |
| JsValues.SliceFromEnd | src/test/resources/ProjectBonita/web_widgets/pbDataTable/pbDataTable.js:97 | A negative start counts back from the end, floored at 0, whatever the end is |
| JsValues.SliceToFromEnd | src/test/resources/ProjectBonita/web_widgets/pbDataTable/pbDataTable.js:97 | A negative end counts back from the end, floored at 0, whatever the start is |
| JsValues.SliceFromZero | src/test/resources/ProjectBonita/web_widgets/pbDataTable/pbDataTable.js:97 | A missing or NaN start reads as 0, whatever the end is |
| JsValues.SliceAdjacent | src/test/resources/ProjectBonita/web_widgets/pbDataTable/pbDataTable.js:95-97 | Slices `[i, j)` and `[j, k)` with `i ≤ j ≤ k` together make up slice `[i, k)` |
| JsStrings.ParseInt | src/test/resources/ProjectBonita/web_widgets/pbDataTable/pbDataTable.js:140-141 | `parseInt` never gives undefined. It gives NaN exactly when no digit follows the leading white space and an optional sign. A number read after `-` is never positive, and any other number read is never negative |
| JsStrings.ParseSkipsSpace | src/test/resources/ProjectBonita/web_widgets/pbDataTable/pbDataTable.js:140-141 | Leading white space does not change what `parseInt` reads |
| JsStrings.ParseNegative | src/test/resources/ProjectBonita/web_widgets/pbDataTable/pbDataTable.js:140-141 | `-` followed by a digit run reads as minus the run's value, whatever follows the run |
| JsStrings.Split | src/test/resources/ProjectBonita/web_widgets/pbDataTable/pbDataTable.js:137-138 | `split` gives at least one piece. No piece contains the separator, and joining the pieces with it restores the string |
| JsStrings.SplitFirst | src/test/resources/ProjectBonita/web_widgets/pbDataTable/pbDataTable.js:137-138 | The first piece of `split` is the text before the first separator. The other pieces are the split of the text after it |
| JsStrings.DecimalString | src/test/resources/ProjectBonita/web_widgets/pbDataTable/pbDataTable.js:140-141 | The decimal notation of a number is a non-empty digit string, and it denotes that number |
| JsStrings.ParseDigits | src/test/resources/ProjectBonita/web_widgets/pbDataTable/pbDataTable.js:140-141 | `parseInt` of a digit string followed by a non-digit (or by nothing) is the value of the digits. What follows is ignored |
| ContentRange.ParseContentRange | src/test/resources/ProjectBonita/web_widgets/pbDataTable/pbDataTable.js:133-143 | A `null` header, and only that, gives the empty record `{}` (both fields undefined). Any header string gives two defined fields, possibly NaN |
| ContentRange.ParseWellFormed | src/test/resources/ProjectBonita/web_widgets/pbDataTable/pbDataTable.js:137-142 | A header `s-e/t` whose `s` and `t` are digit strings with values `start` and `count` gives total = count and currentPage = start + 1, for any `e` without `/` |
| ContentRange.FormatThenParse | src/test/resources/ProjectBonita/web_widgets/pbDataTable/pbDataTable.js:133-143 | Parsing the header a server writes for `first-last/total` gives back `total` and `first + 1` |
| Paging.PageOf | src/test/resources/ProjectBonita/web_widgets/pbDataTable/pbDataTable.js:94-98 | A missing or NaN page number selects no rows. A page never has more rows than the data |
| Paging.PageWindow | src/test/resources/ProjectBonita/web_widgets/pbDataTable/pbDataTable.js:95-97 | For a page size ≥ 0, page `n` ≥ 1 is the run of rows from `(n-1)·pageSize` up to `n·pageSize`, cut at the end of the data. It holds at most `pageSize` rows, and none when it starts past the end |
| Paging.FirstPagesArePrefix | src/test/resources/ProjectBonita/web_widgets/pbDataTable/pbDataTable.js:95-97 | Pages 1 to k, concatenated, are exactly the first `k·pageSize` rows (all rows, once that passes the end). So pages neither overlap nor leave gaps |
| Paging.ItemOnPage | src/test/resources/ProjectBonita/web_widgets/pbDataTable/pbDataTable.js:95-97 | Row `m` of page `n` is row `(n-1)·pageSize + m` of the data, whenever that row exists |
| UrlParams.DropAmpParam | src/test/resources/ProjectBonita/web_widgets/pbDataTable/pbDataTable.js:73 | The first replace, `&name=value` by the separator it swallowed, never lengthens the URL. It keeps a `#` fragment marker present whenever the name is not `#` itself |
| UrlParams.DropQueryParam | src/test/resources/ProjectBonita/web_widgets/pbDataTable/pbDataTable.js:73 | The second replace, `?name=value&` by `?`, never lengthens the URL. It keeps a `#` fragment marker present whenever the name is not `#` itself |
| UrlParams.DropParam | src/test/resources/ProjectBonita/web_widgets/pbDataTable/pbDataTable.js:69-75 | One step of the `reduce`, both replacements for one name, never lengthens the URL. It keeps a `#` fragment marker present, and leaves a URL with no `&c=`, `?c=`, `&p=` or `?p=` unchanged |
| UrlParams.RemoveHandledParams | src/test/resources/ProjectBonita/web_widgets/pbDataTable/pbDataTable.js:68-76 | A missing URL gives `''`. The result is never longer than the URL |
| UrlParams.RemoveClean | src/test/resources/ProjectBonita/web_widgets/pbDataTable/pbDataTable.js:68-76 | A URL without `&c=`, `?c=`, `&p=` or `?p=` comes back unchanged |
| UrlParams.RemoveSingleAmp | src/test/resources/ProjectBonita/web_widgets/pbDataTable/pbDataTable.js:73 | When the URL holds one `&c=value` or `&p=value`, that parameter is removed. The separator or `#fragment` after it, and everything else, are kept |
| UrlParams.RemoveSingleQuery | src/test/resources/ProjectBonita/web_widgets/pbDataTable/pbDataTable.js:73 | When the URL holds one `?c=value` or `?p=value`, that parameter and one following `&` become `?`. A following `#fragment` is kept |
| UrlParams.AdjacentDuplicateSurvives | src/test/resources/ProjectBonita/web_widgets/pbDataTable/pbDataTable.js:73 | Of two `&c=` parameters in a row, only the first is removed: `a&c=v&c=w` becomes `a&c=w`, which still holds a `c` parameter |
| DataTable.Init | src/test/resources/ProjectBonita/web_widgets/pbDataTable/pbDataTable.js:26-34 | The widget starts on page 1 of 0 rows. It sorts ascending on the first sort column when there is one, and on nothing otherwise |
| DataTable.JsonData | src/test/resources/ProjectBonita/web_widgets/pbDataTable/pbDataTable.js:14-19 | `jsonData` passes a non-empty filter string on to the filters as it is. An absent or empty filter is passed as `undefined`, and the data as they are |
| DataTable.EmptyFilterFiltersNothing | src/test/resources/ProjectBonita/web_widgets/pbDataTable/pbDataTable.js:18 | An empty filter string selects the same rows as no filter at all |
| DataTable.JsonDataReads | src/test/resources/ProjectBonita/web_widgets/pbDataTable/pbDataTable.js:14-19 | `jsonData` depends only on the data, the filter and the sort options |
| DataTable.PageIndex | src/test/resources/ProjectBonita/web_widgets/pbDataTable/pbDataTable.js:54 | `currentPage - 1 \|\| 0` is the page number minus one for an integer page number. It is 0 for a missing or NaN one |
| DataTable.SortSpec | src/test/resources/ProjectBonita/web_widgets/pbDataTable/pbDataTable.js:58-60 | The sort order starts with the property. Reading `"<property> ASC"` / `"<property> DESC"` back with an independent parser gives the same property and direction |
| DataTable.CreateRequest | src/test/resources/ProjectBonita/web_widgets/pbDataTable/pbDataTable.js:51-66 | The request URL has the handled parameters removed. `c` is the page size, `p` the page index and `s` the filter. `o` is the sort spec when a sort column is set; otherwise `o` is present only if the caller gave it, with the caller's value. Every other caller parameter passes through unchanged, and the key set is the caller's keys plus the widget's |
| DataTable.UpdateResults | src/test/resources/ProjectBonita/web_widgets/pbDataTable/pbDataTable.js:145-151 | Only `results` can change. With bound data, `results` becomes the current page of `jsonData` and no request is sent. Otherwise the state is unchanged, and a request (the one `createRequest` builds) is sent exactly when an API URL is set. The result is in sync: bound data shows the page the pagination names, and a REST table requests it |
| DataTable.ClientAndServerPagesAgree | src/test/resources/ProjectBonita/web_widgets/pbDataTable/pbDataTable.js:53-54 | For a page number ≥ 1 and a page size ≥ 0, the client-side slice selects the same rows as a REST page with the request's `p` and `c` |
| DataTable.ResetPagination | src/test/resources/ProjectBonita/web_widgets/pbDataTable/pbDataTable.js:156-162 | A configuration change moves to page 1, with the filtered data's length as total. Data, sort options and properties are kept. The results are then in sync with the new page: bound data shows it, and a REST table with an API URL requests it, keeping its old results until the response |
| DataTable.ResetShowsFirstPage | src/test/resources/ProjectBonita/web_widgets/pbDataTable/pbDataTable.js:156-162 | After a reset, bound data shows its first `pageSize` rows. A request is sent exactly when the table is a REST table with an API URL, and it asks for page index 0 |
| DataTable.ContentChanged | src/test/resources/ProjectBonita/web_widgets/pbDataTable/pbDataTable.js:164-174 | Content that is not an array changes nothing and sends nothing. An array becomes the data, with page 1 and the array's length as total. The results are then in sync with the new page: bound data shows it, and a REST table with an API URL requests it |
| DataTable.ContentShowsFirstPage | src/test/resources/ProjectBonita/web_widgets/pbDataTable/pbDataTable.js:164-174 | New array content with bound data shows the first `pageSize` rows of its filtered, ordered view |
| DataTable.SelectRow | src/test/resources/ProjectBonita/web_widgets/pbDataTable/pbDataTable.js:109-113 | A selectable table records the row as `selectedRow`. A table that is not selectable is left unchanged. Nothing other than `selectedRow` ever changes |
| DataTable.SelectionKeepsRequest | src/test/resources/ProjectBonita/web_widgets/pbDataTable/pbDataTable.js:109-113 | Selecting a row changes neither the rows shown nor the request sent |
| DataTable.IsColumnSortable | src/test/resources/ProjectBonita/web_widgets/pbDataTable/pbDataTable.js:115-119 | A column is sortable exactly when the type is `Variable`, or when its key is among the sort columns. The result is undefined (the call would throw) exactly when the type is not `Variable`, the sort columns are an array and the column keys are `null` or `undefined` |
| DataTable.ApplyResponse | src/test/resources/ProjectBonita/web_widgets/pbDataTable/pbDataTable.js:84-87 | A response sets the results to the rows it carries. Without `Content-Range` it leaves the pagination `{}`. With one, both pagination fields are defined. Nothing else changes |
| DataTable.ResponseWithRange | src/test/resources/ProjectBonita/web_widgets/pbDataTable/pbDataTable.js:84-87 | A response whose `Content-Range` is `s-e/t`, for digit strings `s` and `t` and any `e` without `/`, sets the results and the pagination to page `s + 1` of `t` items, and changes nothing else |
| DataTable.MissingRangeRequestsFirstPage | src/test/resources/ProjectBonita/web_widgets/pbDataTable/pbDataTable.js:54 | After a response without `Content-Range`, the next request asks for page index 0 |
| DataTable.ResponseKeepsPage | src/test/resources/ProjectBonita/web_widgets/pbDataTable/pbDataTable.js:133-143 | Suppose the server reports, as the start of `Content-Range`, the page index it was asked for. Then the pagination keeps the same page number, takes the server's total, and the next request asks for the same page |
| DataTable.ChangePage | src/test/resources/ProjectBonita/web_widgets/pbDataTable/pbDataTable.js:105-107 | The pager's new page number is stored and the total is kept. Data, sort options and properties are unchanged. The results are then in sync with the new page: bound data shows it, and a REST table with an API URL requests it |
| DataTable.ChangePageSelects | src/test/resources/ProjectBonita/web_widgets/pbDataTable/pbDataTable.js:105-107 | Going to page `n` shows bound data's page `n`. A request is sent exactly when the table is a REST table with an API URL, and it asks for page index `n - 1` |
| DataTable.Sort | src/test/resources/ProjectBonita/web_widgets/pbDataTable/pbDataTable.js:101-103 | The header's new sort options are stored. Data, pagination and properties are unchanged. The results are then in sync with the new order: bound data shows the current page of it, and a REST table with an API URL requests it |
| DataTable.SortSendsOrder | src/test/resources/ProjectBonita/web_widgets/pbDataTable/pbDataTable.js:58-60 | Sorting a REST table on a column sends an `o` parameter, from which the column and direction read back |

## Left out

- **Framework wiring:** Angular module and directive registration, dependency injection,
  the `$watch` / `$watchCollection` registrations and the template. The model has one
  function per state update that a callback performs.
- **I/O:** `$http`, the `.catch` handler and `$log`. The model returns the request
  instead of sending it, and `ApplyResponse` models the success handler.
- **Library internals:** the concatenation of `transformResponse` with
  `$http.defaults.transformResponse`.
- **`$filter('filter')` and `$filter('orderBy')`:** their semantics belong to Angular. The
  model passes them in as an arbitrary function of the data, the filter and the sort
  options.
- **Number representation:**
  - Numbers are unbounded integers. Floating point, fractional page sizes and the
    imprecision of very long digit strings are not modelled.
  - `pageSize` is an integer.
- **Value coercion:**
  - `String()` coercion of non-string inputs to `htmlEntities` is not modelled; the input
    is a string or absent.
  - Non-string values of the URL, filter and sort column are not modelled.
- **Non-array `sortColumns` and `columnsKey`:** they are arrays, `null` or `undefined`.
  Other non-array values are not modelled. For example, the code reads a string
  `sortColumns` at index 0, taking its first character as the sort column. It also
  indexes an object `columnsKey` without throwing.
- **String encoding:** JavaScript strings are sequences of UTF-16 code units. The model's
  strings are sequences of Unicode scalar values, so lone surrogates cannot be
  represented.
- **`isBound('selectedRow')`:** modelled as a boolean property.
- **`angular.extend` on a non-object `params`:** the caller's parameters are a map of
  numbers, strings and `undefined`.
- JsStrings.ParseInt: does not treat the Unicode white space beyond ASCII space, tab,
  line feed, carriage return, vertical tab and form feed as leading white space.
- JsStrings.ParseInt: does not model `-0`. Every later use of a parsed value treats `-0` exactly as 0: adding 1, `||`, comparing with the page size, and `slice`.
- UrlParams.RemoveHandledParams: states its general contract only as absence handling and
  a length bound. Its behaviour is pinned down by the lemmas for clean URLs, single
  parameters and adjacent duplicates. It does not claim that all `c` and `p` parameters
  are removed, which the code does not do.
