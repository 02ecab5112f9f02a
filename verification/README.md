# Home-run prediction table: a Dafny model

This project models the table of a small web application that shows one day
of home-run predictions. The table is a React component. It gets an array of
rows, keeps those whose player name contains the search term (ignoring
case), sorts them by the clicked column, and shows one page of them. Pad rows
make a short last page as tall as a full one. On a page that starts past the
end of the list they make it taller (see "Findings"). Each row has a tooltip with the
player's stats. The model also covers the server's pure helpers that build
those rows from stored documents: rounding, conversion of a probability to
American odds, the outcome label, and the projection of documents to rows.

Every stage is a pure function over immutable sequences. The component's
state (page, rows per page, sort column and direction, search term) is a
`View` value, and each event handler is a function from one `View` to the
next.

Modules, one per file:

- `Options` (options.dfy): `Option`, for `undefined` and missing keys.
- `Text` (text.dfy): `toLowerCase`, `includes` and `<` on strings, and
  Python's `str` of an integer.
- `Records` (records.dfy): JSON values, the seven-key `Row`, the five
  columns and their values.
- `Server` (server.dfy): `round`, `round(x, 3)`, `probability_to_american_odds`,
  `get_hr_string` and the row projection.
- `SearchFilter` (filter.dfy): the search filter.
- `ColumnSort` (sort.dfy): the comparator and the stable sort.
- `Paging` (paging.dfy): the page slice, the page count and the pad rows.
- `ViewState` (viewstate.dfy): the component state and its event handlers.
- `Tooltip` (tooltip.dfy): `CustomTooltip`.
- `DataDisplay` (datadisplay.dfy): the whole table, composed from the stages.

Notes on behaviour the model keeps as the code has it:

- The sort comparator inverts its labels. Under 'asc' the larger value
  comes first; under 'desc' the smaller value comes first.
- With no sort column every comparison is a tie. `Array.prototype.sort` is
  stable, so the filtered order is kept. The sort works on a copy, so the
  filtered list is never changed. In this model no value can be changed.
- "Home run odds" holds strings, so that column sorts as text, not by
  number.
- Typing a search term does not reset the page.
- In JavaScript, `a < b` on values of mixed kinds has its own rules. A column
  never mixes kinds (`Records.Key`), so the model makes that case false.

## Model

| member | source | states |
|---|---|---|
| Text.Lower | react_app/src/DataDisplay.js:66 | `toLowerCase` keeps the length and lower-cases each character on its own |
| Text.Contains | react_app/src/DataDisplay.js:66 | `includes` always finds the empty term and never finds a term longer than the text |
| Text.LexLess | react_app/src/DataDisplay.js:73-75 | string `<` never holds between equal strings, and a proper prefix is less than the longer string |
| Text.NatToString | flask_server/app.py:44 | `str` of a non-negative integer is a non-empty string of decimal digits with no leading zero |
| Text.LowerChar | react_app/src/DataDisplay.js:66 | the lower-cased character is never a capital; a capital moves 32 code points up, and other characters stay unchanged |
| Text.ContainsIffOccurs | react_app/src/DataDisplay.js:66 | the left-to-right `includes` scan succeeds exactly when the term occurs at some index of the name |
| Text.LexLessTotal | react_app/src/DataDisplay.js:73 | for any two different strings, string `<` holds in one direction |
| Text.LexLessTransitive | react_app/src/DataDisplay.js:75 | string `<` is transitive |
| Text.ParseNatToString | flask_server/app.py:44 | reading back the digits `str` prints for a non-negative integer gives that integer |
| Records.Key | react_app/src/DataDisplay.js:70-71 | the value a row holds in a column, as `a[orderBy]` and `item[key]` read it: a number exactly in the probability column and a string in every other column, so no column mixes kinds |
| Records.ValueLess | react_app/src/DataDisplay.js:73-75 | JavaScript `<` on two cell values: numeric order on numbers, string `<` on strings, and false for a number against a string |
| Records.ValueLessOrder | react_app/src/DataDisplay.js:70-76 | within one column, `<` on cell values is irreflexive, transitive and total |
| Records.ColumnHeaders | react_app/src/DataDisplay.js:80 | the five headers name five distinct columns, and each column appears in the header order |
| Server.RoundHalfEven | flask_server/app.py:44 | `round` gives an integer within 1/2 of its argument, and the even one on a tie |
| Server.RoundHalfEvenUnique | flask_server/app.py:44 | those two conditions determine the rounded integer |
| Server.Round3 | flask_server/app.py:82 | `round(x, 3)` is a multiple of 1/1000 within 1/2000 of x |
| Server.FairOddsImplied | flask_server/app.py:39-46 | the exact odds for a probability imply that probability again |
| Server.ProbabilityToAmericanOdds | flask_server/app.py:39-46 | "N/A" exactly when p <= 0 or p >= 1; "+" below 1/2 and "-" from 1/2; the printed number is within 1/2 of the fair odds |
| Server.ProbabilityToAmericanOddsAsWritten | flask_server/app.py:39-46 | the same "N/A" and sign decisions; for a favourite, the printed number is within 1/2 of 100 / (1 - p) |
| Server.AsWrittenFavouriteOverstated | flask_server/app.py:46 | the favourite price as written is the fair price plus exactly 100 |
| Server.AsWrittenThreeQuarters | flask_server/app.py:46 | p = 3/4 prints "-400" (implying 4/5) as written and "-300" (implying 3/4) corrected |
| Server.SignedOdds | flask_server/app.py:44-46 | the sign followed by `str` of the rounded magnitude; the string starts with the sign and reads back as the signed integer |
| Server.HrString | flask_server/app.py:72-79 | the label for outcome code 0, 1 or 2 reads back as that code, so the labels are "No", "Yes" and "---" |
| Server.HrStringInjective | flask_server/app.py:72-79 | different outcome codes get different labels |
| Server.ProjectDocument | flask_server/app.py:80-87 | name and model are copied; the probability is `round(x, 3)` of the stored one, so within 1/2000 of it; odds from `probability_to_american_odds` as written, so a favourite is priced 100 too long; outcome label; stats kept; `odds_data` copied when present, else `{}` |
| Server.Project | flask_server/app.py:80-87 | one row per document, in document order |
| Server.ProjectAppend | flask_server/app.py:80-87 | projecting two batches one after the other gives the rows of their concatenation |
| SearchFilter.Matches | react_app/src/DataDisplay.js:66 | a row matches exactly when the lower-cased term occurs at some index of the lower-cased player name |
| SearchFilter.Filter | react_app/src/DataDisplay.js:65-67 | a row is kept if and only if it is in the input and its lower-cased name contains the lower-cased term, as many times as it occurs in the input |
| SearchFilter.FilterAppend | react_app/src/DataDisplay.js:65-67 | the filter works row by row and keeps input order |
| SearchFilter.FilterSingle | react_app/src/DataDisplay.js:65-67 | a single row is kept exactly when it matches |
| SearchFilter.FilterEmptyTerm | react_app/src/DataDisplay.js:65-67 | the empty term returns the input unchanged |
| SearchFilter.FilterIdempotent | react_app/src/DataDisplay.js:65-67 | filtering twice with the same term equals filtering once |
| SearchFilter.FilterLowerTerm | react_app/src/DataDisplay.js:66 | searching for the lower-cased term finds the same rows as searching for the term |
| ColumnSort.Compare | react_app/src/DataDisplay.js:69-77 | the comparator returns -1, 0 or 1. Under 'asc' it puts `a` first exactly when `a` holds the larger value; under 'desc', exactly when `a` holds the smaller value. It ties exactly when there is no column or the values are equal |
| ColumnSort.CompareConsistent | react_app/src/DataDisplay.js:69-77 | swapping the arguments negates the comparator |
| ColumnSort.BeforeWeakOrder | react_app/src/DataDisplay.js:69-77 | "placed strictly before" is a strict weak order |
| ColumnSort.InsertSorted | react_app/src/DataDisplay.js:69 | inserting a row into a sorted list keeps it sorted |
| ColumnSort.SortRows | react_app/src/DataDisplay.js:69-77 | the result is a permutation of the filtered rows, and no row is placed before an earlier one by the comparator |
| ColumnSort.SortedValues | react_app/src/DataDisplay.js:72-76 | under 'asc' the column values are non-increasing; under 'desc' they are non-decreasing |
| ColumnSort.SortWithoutColumn | react_app/src/DataDisplay.js:70-71 | with no column selected, the order is unchanged |
| ColumnSort.SortStable | react_app/src/DataDisplay.js:69 | rows with equal values in the column keep their input order |
| ColumnSort.SortSortedIsIdentity | react_app/src/DataDisplay.js:69 | an already sorted list is left as it is |
| ColumnSort.SortIdempotent | react_app/src/DataDisplay.js:69-77 | sorting twice by the same column and direction equals sorting once |
| ColumnSort.SortedUnique | react_app/src/DataDisplay.js:69-77 | on a column without duplicate values, the rows have only one sorted arrangement |
| ColumnSort.SortReverse | react_app/src/DataDisplay.js:72-76 | on a column without duplicate values, sorting 'desc' gives the exact reverse of sorting 'asc' |
| Paging.PageSlice | react_app/src/DataDisplay.js:127 | a page holds at most rows-per-page rows, taken in order from position page * rowsPerPage; it is empty once that position is at or past the end |
| Paging.PageSliceSubMultiset | react_app/src/DataDisplay.js:127 | a page holds rows of the list, none more often than the list does |
| Paging.FirstPagesPrefix | react_app/src/DataDisplay.js:127 | pages 0 to k - 1 together are the first k * rowsPerPage rows |
| Paging.PageCount | react_app/src/DataDisplay.js:144-149 | the page count is the least number of pages that holds every row |
| Paging.AllPages | react_app/src/DataDisplay.js:127 | concatenating all pages gives the sorted list, each row once |
| Paging.PageEmptyIffPastCount | react_app/src/DataDisplay.js:127 | a page is empty exactly when its index is at or past the page count |
| Paging.EmptyRowsAsWritten | react_app/src/DataDisplay.js:79 | never negative; page plus pad is one page while the page starts within the list; past the end the page is empty and the pad is a full page plus the distance from the end of the list to the page start |
| Paging.EmptyRowsAsWrittenPastEnd | react_app/src/DataDisplay.js:79 | 5 rows, 10 per page, page 1: empty page and 15 pad rows |
| Paging.EmptyRows | react_app/src/DataDisplay.js:79 | the pad count is at most one page, and page plus pad is exactly one page |
| Paging.EmptyRowsAgree | react_app/src/DataDisplay.js:79 | while the page starts within the list, the formula as written and the intended one agree |
| Paging.EmptyRowsExamples | react_app/src/DataDisplay.js:79 | 7 rows, 10 per page, page 0: 3 pad rows; 10 rows: none. The formula as written and the corrected one both give these counts |
| ViewState.ChangePage | react_app/src/DataDisplay.js:45-47 | the page becomes the requested one; nothing else changes |
| ViewState.ChangeRowsPerPage | react_app/src/DataDisplay.js:49-52 | the page size becomes the chosen one and the page becomes 0; nothing else changes |
| ViewState.RequestSort | react_app/src/DataDisplay.js:54-58 | the clicked column becomes the sort column; the active column toggles asc to desc and desc to asc; any other column starts at asc; nothing else changes |
| ViewState.RequestSortTwice | react_app/src/DataDisplay.js:54-58 | two clicks on the active header restore the state; two clicks on another header leave it sorted 'desc' |
| ViewState.SetSearchTerm | react_app/src/DataDisplay.js:99 | only the search term changes; the page is kept |
| Tooltip.FormatValue | react_app/src/DataDisplay.js:16 | a number is shown as its 3-decimal text; any other value is passed to the page unchanged (a string shows as its text) |
| Tooltip.FormatEntries | react_app/src/DataDisplay.js:15-27 | one line per entry, in entry order, with the key kept and the value formatted |
| Tooltip.FormatEntriesAppend | react_app/src/DataDisplay.js:15 | formatting works entry by entry and keeps entry order |
| Tooltip.CustomTooltip | react_app/src/DataDisplay.js:8-27 | disabled exactly for an undefined dictionary; otherwise the line keys are the dictionary's keys in order; numbers go through the 3-decimal formatter and other values are passed on unchanged |
| DataDisplay.SortedData | react_app/src/DataDisplay.js:65-77 | the sorted list is a permutation of the filtered rows, and a row is in it exactly when it is in the data and matches the term. No row comes before one the comparator puts ahead of it, and rows with equal values in the sort column keep their data order. With no sort column the list is the filtered list itself, in data order |
| DataDisplay.Visible | react_app/src/DataDisplay.js:127 | the visible rows are page `page` of the sorted list: its rows from position page * rowsPerPage on, in order, as many as remain up to one page, and none once that position is at or past the end; all of them come from the data and match the term |
| DataDisplay.ViewRow | react_app/src/DataDisplay.js:128-135 | a table row shows the five column values in header order, then the row's stats tooltip |
| DataDisplay.ViewRows | react_app/src/DataDisplay.js:127-136 | one table row per row of the page, in page order |
| DataDisplay.Render | react_app/src/DataDisplay.js:60-161 | nothing for missing data; the no-data message exactly for an empty array. Otherwise the count is the number of matching rows and the rows shown are the current page's. While the page starts within the list, the shown rows plus pad rows fill one page. Past the end, no rows are shown and the pad count is a full page plus the overshoot |
| DataDisplay.PagesCoverMatches | react_app/src/DataDisplay.js:127 | walking all pages shows each matching row as often as it occurs in the data, and no other row |
| DataDisplay.ChangeRowsPerPageShowsFirstRows | react_app/src/DataDisplay.js:49-52 | after a page-size change, the table shows the first rows of the sorted list, and the pad formula as written is correct |
| DataDisplay.InitialViewShowsFirstRows | react_app/src/DataDisplay.js:39-43 | a newly mounted table shows the first ten rows of the data, in arrival order |
| DataDisplay.SearchPastEndOverPads | react_app/src/DataDisplay.js:79 | a search that leaves fewer rows than the current page's start shows an empty page, with more pad rows than a page holds as written |
| DataDisplay.ClickNewHeaderSortsLargestFirst | react_app/src/DataDisplay.js:54-58 | a click on a new header sorts under the 'asc' label, which puts larger values first |
| DataDisplay.ProjectedRowsHaveStats | flask_server/app.py:85 | every row the server builds has an active tooltip with one line per stat |

## Left out

- The network fetch, the retry when the data is empty, the Mongo query with
  its descending sort, the Flask routes and the logging are I/O. They are not
  modelled. The rows reach the table as a sequence.
- JSON encoding on the server and decoding in the browser are not modelled.
  A stats dictionary is the sequence of its entries. Server.ProjectDocument
  keeps the stored order, but that order does not reach the browser: Flask's
  `jsonify` sorts dictionary keys by default, and JavaScript enumerates
  integer-like keys first. The tooltip takes its entries in the order the
  browser enumerates them, which is not in general the stored order.
- Date arithmetic, the early-season warning, date strings, the header and
  the theme are not part of this model.
- Rendering is not modelled: MUI components, styles, the error paragraph,
  and the `53 * emptyRows` pixel height. The model keeps only what each row
  shows and the pad-row count.
- `createStatsString` is defined but never called.
- Odds aggregation and fair-value flagging have no code in these files.
  `odds_data` is only passed through.
- Tooltip.CustomTooltip: `toFixed(3)` is the parameter `fixed3`. Its digits
  and rounding are not modelled. The contract says only that numbers go
  through it.
- Tooltip.FormatValue: a value that is not a number is passed on unchanged.
  What React makes of it is not modelled: a string shows as its text,
  `true`, `false` and `null` show nothing, and a nested object or array
  makes rendering fail.
- Tooltip.CustomTooltip: a `null` stats value (as opposed to an undefined
  one) makes `Object.entries` throw. It is not modelled; the server always
  sends a stats value taken from the stored document.
- Server.ProbabilityToAmericanOdds: numbers are exact reals. Floating-point
  error before `round` and NaN are not modelled. Python's `round` is modelled
  as round-half-to-even on the exact value.
- Text.LowerChar: only ASCII and Latin-1 capitals are mapped. The rest of
  Unicode case mapping, including mappings that change a string's length, is
  not modelled.
- Text.LexLess compares code points. JavaScript compares UTF-16 code units,
  which differs only for characters outside the Basic Multilingual Plane.
- `parseInt` of the rows-per-page choice is not modelled. The handler takes
  the number.
- The MUI control's bounds on the page index are not modelled. Any
  non-negative page is accepted.
- Server.HrString: a code outside 0, 1 and 2 fails an assertion in the
  source. Here it is a precondition.
- A document missing one of the required fields raises `KeyError`. Such
  documents are not modelled: only `odds_data` is optional. The "Model"
  field is taken to be a string.

## Findings

| source | as written | input that shows it | evidently intended | confidence | as-written member | corrected member |
|---|---|---|---|---|---|---|
| flask_server/app.py:46 | a favourite (p >= 1/2) prints `-round(100 / (1 - p))`, which is the fair price plus 100 | p = 0.75 prints "-400", which implies 0.8; p = 0.5 prints "-200" | `-round(100 p / (1 - p))`: "-300" for 0.75, "-100" for 0.5, odds that imply p | high; not executed | Server.ProbabilityToAmericanOddsAsWritten | Server.ProbabilityToAmericanOdds |
| react_app/src/DataDisplay.js:79 | `max(0, rpp - min(rpp, length - page * rpp))`; past the end the inner difference is negative | 5 matching rows, 10 per page, page 1 (reached by typing a search term on page 1): 15 pad rows | the rows missing from one page, at most `rpp` | medium; not executed | Paging.EmptyRowsAsWritten | Paging.EmptyRows |

`Server.AsWrittenThreeQuarters` and `Server.AsWrittenFavouriteOverstated` show
the first discrepancy. `Server.FairOddsImplied` and the contract of
`Server.ProbabilityToAmericanOdds` prove the corrected form.
`Paging.EmptyRowsAsWrittenPastEnd` and `DataDisplay.SearchPastEndOverPads`
show the second, and the contract of `Paging.EmptyRows` proves the corrected
form. `Server.ProjectDocument` and `DataDisplay.Render` model the program, so
they use the formulas as written. The corrected definitions stand beside
them: `Server.ProbabilityToAmericanOddsAsWritten` agrees with the corrected
conversion below 1/2, and `Paging.EmptyRowsAgree` shows that the two pad
formulas agree while the page starts within the list.
