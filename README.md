# Pricing view model of the LLM API pricing calculator

The calculator is a single React component, `App` in `app.js`. It loads a
catalog of models with their prices per million input and output tokens, and
derives per-token prices and a total per million tokens for every row. The
user can search by model name or provider and choose projected input and
output token counts. The cards then show each matching model's estimated
session cost, in US dollars or, at a user-set exchange rate, in Egyptian
pounds. A table under the cards lists the whole catalog, sortable by model
name, input price or output price by clicking the column headers.

This project models that view model in Dafny and proves what it promises:

- `text.dfy` (module `Text`): the JavaScript string operations the search
  uses. `trim` strips ECMAScript white space. `toLowerCase` is limited to
  ASCII. `includes` is a substring test, proved equal to "occurs at some
  position".
- `lists.dfy` (module `Lists`): `Array.prototype.filter`. It keeps an element
  exactly when the predicate holds, as many times as it occurs, in its
  original order.
- `sorting.dfy` (module `Sorting`): `Array.prototype.sort` with a comparator.
  ECMAScript requires this sort to be stable. The specification is a
  functional insertion sort, `SortBy`. An in-place insertion sort on an
  array is proved to compute it, and `SortCopy` sorts a fresh copy as
  `[...rows].sort(...)` does. For a consistent comparator, `SortBy` is proved
  to be a sorted permutation and stable. It is also idempotent and the
  identity on sorted input. When no two elements tie, it is the only sorted
  arrangement, so negating the comparator reverses the result.
- `pricing.dfy` (module `Pricing`): the catalog rows, the clamp helper, the
  row derivation, the search filter with its cost annotation, the display
  rate, the table comparator and sort, and the sort-header toggle.
- `app.dfy` (module `ViewModel`): class `App` holds the component's state as
  fields: rows, search text, token counts, currency, exchange rate, sort key
  and direction. Its methods are the input handlers, with the clamps they
  apply. Its invariant `Valid` keeps token counts in `[0, 10^10]`, the rate
  in `[1, 10000]` and every row's derived prices consistent. It also has
  the two views: `Cards` (filtered and costed) and `TableRows` (sorted).

Prices, token counts and costs are exact `real`s. `localeCompare` is a
parameter `collate`, and the only thing required of it is `IsCollation`:
swapping the arguments flips the sign of the answer, and "not after" is
transitive.

## Model

| member | source | states |
|---|---|---|
| `Pricing.Clamp` | app.js:7 | the result is within `[lo, hi]` when `lo <= hi`; it is `n` when `n` is in range, `lo` below it, `hi` above it; and `lo` when `hi < lo` |
| `Pricing.ClampIdempotent` | app.js:7 | clamping an already clamped value changes nothing |
| `Pricing.Derive` | app.js:32-37 | keeps the catalog row unchanged; per-token price times 1,000,000 gives back the per-1M price; total per 1M is input plus output per 1M |
| `Pricing.WellDerivedIff` | app.js:34-36 | a derived row has the per-token prices and total that app.js:34-36 compute from its catalog row exactly when it equals `Derive` of that row |
| `Pricing.DeriveRows` | app.js:32-37 | one derived row per catalog row, the i-th carrying the i-th catalog row and consistent derived prices (so, by `WellDerivedIff`, it is `Derive` of that row) |
| `Pricing.DeriveRowsKeepsCatalog` | app.js:33 | the derived rows' catalog rows are the input catalog, in order (the spread keeps every original field) |
| `Text.TrimStart` | app.js:44 | the result is a suffix of the input, everything cut off is white space, and it does not start with white space |
| `Text.TrimEnd` | app.js:44 | the result is a prefix of the input, everything cut off is white space, and it does not end with white space |
| `Text.Trim` | app.js:44 | the result is a middle slice of the input with only white space on either side of it, and it neither starts nor ends with white space |
| `Text.TrimEmptyIff` | app.js:44 | the trimmed term is empty exactly when the search text is all white space |
| `Text.LowerAsciiIdempotent` | app.js:44 | lower-casing twice is lower-casing once |
| `Text.TrimLower` | app.js:44 | trimming and lower-casing commute |
| `Text.LowerChar` | app.js:44 | a character from A to Z becomes the letter 32 code points later (its small letter), and every other character is unchanged |
| `Text.LowerAscii` | app.js:44 | the result has the input's length, and at each position an ASCII capital becomes its small letter while every other character stays as it is |
| `Text.IncludesIff` | app.js:46 | `includes` holds exactly when the term occurs at some position of the string |
| `Text.Includes` | app.js:46 | the empty term is included in every string, and a term longer than the string is never included |
| `Lists.FilterMembers` | app.js:45-46 | an element is kept exactly when it is in the input and satisfies the predicate |
| `Lists.FilterCount` | app.js:45-46 | a kept element is kept as often as it occurs; a rejected one never |
| `Lists.FilterIsSubsequence` | app.js:45-46 | the kept elements are a subsequence of the input, in their original order |
| `Lists.FilterConcat` | app.js:45-46 | filtering a concatenation filters each part |
| `Lists.FilterAll` | app.js:46 | when every element passes, the filter is the identity |
| `Lists.FilterNone` | app.js:46 | when no element passes, the result is empty |
| `Lists.Filter` | app.js:45-46 | the result is never longer than the input; what it keeps is stated by `FilterMembers`, `FilterCount` and `FilterIsSubsequence` |
| `Pricing.EstCost` | app.js:49 | cost times 1,000,000 equals `inTokens * input_per_1M + outTokens * output_per_1M` for a derived row; non-negative for non-negative token counts and prices |
| `Pricing.SearchTerm` | app.js:44 | the term is no longer than the search text, has no capital letters, and is empty exactly when the search text is all white space |
| `Pricing.Matches` | app.js:46 | a row matches exactly when the term is empty or occurs at some position of the lower-cased model name or of the lower-cased provider |
| `Pricing.FilterRows` | app.js:45-46 | a row is kept exactly when it is in the catalog rows and matches the search term, and the kept rows are a subsequence of the catalog rows, in their order |
| `Pricing.Annotate` | app.js:47-50 | the card keeps its row, and for a derived row its cost times 10^6 is `inTokens * input_per_1M + outTokens * output_per_1M` |
| `Pricing.Filtered` | app.js:43-51 | the cards' rows are exactly the filtered rows, in the same order, and each card carries the cost of its own row |
| `Pricing.FilteredKeepsIff` | app.js:44-46 | a row is shown exactly when it is in `rows` and the trimmed, lower-cased term is empty or occurs in its lower-cased model name or provider |
| `Pricing.FilteredInOrder` | app.js:45-46 | the shown rows are a subsequence of `rows` in catalog order |
| `Pricing.BlankSearchShowsAll` | app.js:44-46 | an empty or all-white-space search shows every row in catalog order |
| `Pricing.UnmatchedSearchShowsNone` | app.js:46 | a term that matches no row shows no card |
| `Pricing.SearchIgnoresCase` | app.js:44 | lower-casing the search text does not change the result |
| `Pricing.CardsFromRows` | app.js:43-50 | every card is a matching catalog row with the cost of its prices |
| `Pricing.FilteredCosts` | app.js:47-50 | on derived rows and non-negative token counts, every card's cost times 10^6 is `inTokens * input_per_1M + outTokens * output_per_1M`, and it is non-negative when all catalog prices are |
| `Pricing.ConvertMonotone` | app.js:111-114 | with a positive rate, converted amounts compare as the dollar amounts do, and dividing by the rate gives the dollar amount back |
| `Pricing.Rate` | app.js:20-21 | the rate is 1 under USD and the exchange rate under EGP |
| `Pricing.Convert` | app.js:111-114 | a displayed amount is the dollar amount under USD and the dollar amount times the exchange rate under EGP |
| `Pricing.RowCompareConsistent` | app.js:55-60 | for every key and direction the table comparator flips sign on swapped arguments and is transitive, provided localeCompare is |
| `Pricing.DescNegatesAsc` | app.js:55-59 | the descending comparator is the ascending one negated |
| `Pricing.DirSign` | app.js:55 | the factor is 1 or -1, and it is positive exactly for ascending |
| `Pricing.CompareRows` | app.js:56-60 | by model name the answer is negative exactly when localeCompare is negative (ascending) or positive (descending), and 0 exactly when localeCompare is 0; by input or output price it is negative exactly when the first row's price is lower (ascending) or higher (descending), and 0 exactly when the prices are equal; for any other key it is 0 |
| `Pricing.SortedRows` | app.js:54-62 | the table is `SortBy` of the rows and a permutation of them. By model name it is non-decreasing under localeCompare ascending and non-increasing descending; likewise by input or output price per 1M. An unknown key returns the rows unchanged |
| `Pricing.SortedByColumn` | app.js:56-59 | the sorted rows are non-decreasing by localeCompare on the name (ascending) or non-increasing (descending), and likewise by input or output price per 1M |
| `Pricing.SortedRowsStable` | app.js:56-61 | rows that tie on the sort column keep their catalog order |
| `Pricing.SortedRowsIdempotent` | app.js:56-61 | sorting the sorted table again changes nothing |
| `Pricing.SortedRowsDescReversesAsc` | app.js:55-61 | when no two distinct rows tie on the column, descending order is ascending order reversed |
| `Pricing.DisplayedColumnOrdered` | app.js:172-173 | the price columns show converted prices, and with a positive rate those are in ascending or descending order, as the dollar prices the table sorts on are |
| `Pricing.Toggle` | app.js:64-67 | the clicked key becomes the sort key; clicking the current key flips the direction, another key starts ascending |
| `Pricing.Flip` | app.js:65 | flipping always changes the direction |
| `Pricing.ToggleSameTwice` | app.js:64-67 | clicking the current column twice restores the state |
| `Pricing.ToggleOtherTwice` | app.js:64-67 | clicking a new column twice sorts it descending |
| `Pricing.OneRowExample` | app.js:32-50 | a row at 10/30 per 1M with 100000 input tokens costs 1 dollar, has total 40 per 1M, and shows 1 in USD and 50 in EGP at rate 50 |
| `Sorting.InsertPermutes` | app.js:56 | insertion adds the new element and loses none |
| `Sorting.SortByPermutes` | app.js:56 | the sorted sequence is a permutation of the input |
| `Sorting.InsertSorted` | app.js:56 | inserting into a sorted sequence keeps it sorted |
| `Sorting.SortBySorted` | app.js:56 | the sort's result is sorted for any consistent comparator |
| `Sorting.SortByOfSorted` | app.js:56 | an already sorted sequence comes back unchanged |
| `Sorting.SortByIdempotent` | app.js:56 | sorting twice is sorting once |
| `Sorting.AllTiedKeepsOrder` | app.js:60 | a comparator that answers 0 for every pair leaves the order unchanged |
| `Sorting.InsertStable` | app.js:56 | insertion puts the new element after every element it ties with |
| `Sorting.InsertBy` | app.js:56 | inserting adds exactly one element; where it goes is stated by `InsertSorted` and `InsertStable` |
| `Sorting.SortBy` | app.js:56 | the stable sort keeps the length; its other properties are the lemmas below |
| `Sorting.SortByStable` | app.js:56 | stability: the elements tied with any value come out in their input order |
| `Sorting.SortedUnique` | app.js:56 | two sorted arrangements of the same elements are equal when no two distinct elements tie |
| `Sorting.SortByNegated` | app.js:55-56 | with no ties, sorting by the negated comparator gives the reverse order |
| `Sorting.ShiftInsert` | app.js:56 | moving `a[i]` left into the sorted prefix leaves `InsertBy` of that prefix, and the rest of the array unchanged |
| `Sorting.InsertionSort` | app.js:56 | the array, sorted in place, holds `SortBy` of its old contents |
| `Sorting.SortCopy` | app.js:56 | sorting a fresh copy returns `SortBy` of the input, and the input is unchanged |
| `ViewModel.App.constructor` | app.js:10-25 | the initial state: no rows, empty search, 100000 input and 0 output tokens, USD, rate 50, sorted by model name ascending |
| `ViewModel.App.OnCatalogLoaded` | app.js:30-37 | the rows become the derivation of the fetched catalog |
| `ViewModel.App.SetQuery` | app.js:76 | the search text is what was typed |
| `ViewModel.App.SetInTokens` | app.js:81 | the input token count is the typed value clamped to `[0, 10^10]` |
| `ViewModel.App.SlideInTokens` | app.js:83 | the slider value, at most 2000000, becomes the input token count |
| `ViewModel.App.SetOutTokens` | app.js:88 | the output token count is the typed value clamped to `[0, 10^10]` |
| `ViewModel.App.SlideOutTokens` | app.js:90 | the slider value becomes the output token count |
| `ViewModel.App.SetCurrency` | app.js:95-96 | the chosen currency is stored |
| `ViewModel.App.SetFx` | app.js:100 | the exchange rate is the typed value clamped to `[1, 10000]` |
| `ViewModel.App.ResetFx` | app.js:102 | the exchange rate returns to 50 |
| `ViewModel.App.SortToggle` | app.js:64-67 | the new sort key and direction are `Toggle` of the old ones |
| `ViewModel.App.DisplayRate` | app.js:20-21 | the display rate is at least 1; it is 1 under USD and the exchange rate under EGP |
| `ViewModel.App.Cards` | app.js:43-51 | the cards' rows are exactly the rows matching the search, in catalog order; each cost times 10^6 is `inTokens * input_per_1M + outTokens * output_per_1M`; costs are non-negative when prices are |
| `ViewModel.App.TableRows` | app.js:54-62 | the table is `SortBy` of the rows under the current key and direction, and a permutation of them |

## Left out

- The catalog fetch, its JSON parsing and the `.catch` fallback to an empty list (app.js:27-41). They are network I/O and one asynchronous step. Only the success handler's `setRows(data.map(...))` is modelled, as `OnCatalogLoaded`.
- React and htm rendering, the hooks' plumbing, `ReactDOM.createRoot` and the markup (app.js:1-3, 69-185). These are UI; the state they hold is the class `App`.
- `prettyMoney` (`Intl.NumberFormat`) and `toLocaleString` (app.js:5-6, 141-142). They format numbers for the locale. Only the multiplication by the rate is modelled.
- The locale's actual collation order for `localeCompare`. It is a parameter, constrained only by `IsCollation`.
- Full Unicode `toLowerCase`. Only ASCII letters are lower-cased. The white space `trim` removes is ECMAScript's full list.
- IEEE-754 rounding. Prices, token counts and costs are exact reals, so `total_per_1M` equals the sum exactly and a cost is never NaN or infinite.
- `Number(...)` coercion of string or malformed catalog fields and of the typed input (`Number(e.target.value || 0)`). Catalog prices and typed values arrive as numbers, so a NaN price is not modelled.
- A catalog row whose `model_name` or `provider` is missing or not a string. The source then throws: at app.js:46 when the term is non-empty, and at app.js:57 when sorting by name. The model's catalog row has string fields, so this failure cannot happen in the model.
- Extra catalog fields beyond the four used. The spread copies them too, but the model's catalog row has only the four fields the component reads.
- The slider's display cap `Math.min(x, 2000000)` (app.js:82, 89). It is presentation only. The range input's own bound appears as the precondition of `SlideInTokens` and `SlideOutTokens`.
- The particular algorithm inside `Array.prototype.sort`. It is modelled as a stable insertion sort. For a consistent comparator every stable sort gives the same result, but that equivalence is not proved here.
- Sort key and currency: the currency is a two-value datatype, because the buttons only set `"USD"` and `"EGP"`. The direction is also a datatype, because only `"asc"` and `"desc"` are ever stored. The sort key stays a string, so the comparator's fallback for an unknown key is reachable.
