# EasyDrive browse view — a Dafny model

This project models the core logic of the EasyDrive car-review site's home
page:

- the **catalog generator**, which builds the mock vehicle records;
- the **browse view**, which shows that catalog filtered by the selected
  makes and a free-text search;
  - the filtered list keeps catalog order;
  - it is cut to eight vehicles per page, and a "Load More" button adds a page;
- the **make buttons**, which list the catalog's distinct makes in sorted order.

Modules, one per concern:

- `Text` (text.dfy): ASCII `toLowerCase`, `String.prototype.includes`, and the
  decimal `toString` of an integer, with its read-back.
- `StringOrder` (ordering.dfy): the default string order of
  `Array.prototype.sort` and an insertion sort under it.
- `Seqs` (seqs.dfy): no-duplicates, subsequences (an increasing index
  embedding), the values of a JavaScript `Set`, the
  `filter(m => m !== make)` removal, and `slice(0, n)`.
- `Vehicles` (vehicles.dfy): the `Vehicle` record (the `Vehicle` interface
  of src/data/vehicles.ts:3-13 without its `rating`) and `generateVehicles`.
  Every `Math.floor(Math.random() * k)` is an integer draw in `[0, k)`, supplied
  by the caller (`Draw`, `DrawInRange`).
- `Home` (home.dfy): the filter, the pagination, the make toggle and
  `allMakes` as functions and lemmas. `BrowseView` is a class whose fields are
  the page's state: `selectedMakes`, `page`, `searchQuery` and
  `displayedVehicles`. Each handler and effect is one method: an atomic update
  of the inputs followed by recomputing the shown list. `Valid()` ties the
  shown list to the filter, keeps `selectedMakes` free of duplicates and
  within the catalog's makes, and bounds `page` by the filtered length.

The catalog is a constructor argument of `BrowseView`. The site passes the
module-level `generateVehicles(100)`. The search text of a location is
a method argument, with a missing `search` parameter meaning `""`.

Behaviour of the code worth knowing:

- Adding a make to an empty selection narrows the list; adding one to a
  non-empty selection can only widen it (`SelectionNarrows`,
  `AddedMakeWidens`).
- `selectedMakes` is an array: a toggled make is appended, an untoggled one
  filtered out. A double toggle restores the selected set, and the very
  sequence when the make was not selected (`ToggleTwice`).
- The page resets whenever `location.search` changes
  (src/pages/Home.tsx:17-22), whether or not the `search` parameter itself
  changed. `Navigate` is one run of that effect.
- `handleMakeToggle` is only reached from the `allMakes` buttons
  (src/pages/Home.tsx:59-62) and `handleLoadMore` only from the Load More
  button, which is rendered while a filtered vehicle is hidden
  (src/pages/Home.tsx:96-103). `ToggleMake` and `LoadMore` require exactly
  that, and `Valid()` records the consequences: every selected make is a
  catalog make, and the page never passes the last non-empty page.

## Model

| member | source | states |
|---|---|---|
| `Text.LowerChar` | src/pages/Home.tsx:28-29 | upper-case ASCII letters map to the letter 32 code points later; other characters are unchanged; the result is never upper-case |
| `Text.Lower` | src/pages/Home.tsx:28-29 | `toLowerCase` keeps the length and lower-cases each character on its own |
| `Text.Contains` | src/pages/Home.tsx:28-30 | `includes`: the empty string is found in every string, and a found string is no longer than the one searched |
| `Text.ContainsLower` | src/pages/Home.tsx:28-29 | a substring stays a substring once both texts are lower-cased |
| `Text.LowerIdempotent` | src/pages/Home.tsx:28-29 | lower-casing an already lower-cased text changes nothing |
| `Text.ContainsIff` | src/pages/Home.tsx:28-30 | `includes` holds exactly when the substring occurs at some position of the string |
| `Text.ContainsChars` | src/pages/Home.tsx:28-30 | every character of a found substring occurs in the string |
| `Text.NatToString` | src/pages/Home.tsx:30 | the decimal text of a natural number is non-empty, all digits, and has no leading zero unless the number is 0 |
| `Text.NatToStringRoundTrip` | src/pages/Home.tsx:30 | reading the decimal digits back gives the number |
| `Text.IntToString` | src/pages/Home.tsx:30 | an integer's text is digits, possibly after one leading minus sign, so it holds no letter |
| `StringOrder.Less` | src/pages/Home.tsx:15 | `sort`'s default comparison: no string sorts before an equal one, and a proper prefix sorts before the longer string |
| `StringOrder.LessIrreflexive` | src/pages/Home.tsx:15 | no make sorts before itself |
| `StringOrder.LessTransitive` | src/pages/Home.tsx:15 | the sort order is transitive |
| `StringOrder.LessTotal` | src/pages/Home.tsx:15 | any two different makes are ordered one way or the other |
| `StringOrder.LessAsymmetric` | src/pages/Home.tsx:15 | two makes are never each before the other |
| `StringOrder.StrictlySortedDistinct` | src/pages/Home.tsx:15 | an ascending list holds no make twice |
| `StringOrder.Insert` | src/pages/Home.tsx:15 | inserting adds exactly one copy of the value (a multiset equation) |
| `StringOrder.InsertStrictlySorted` | src/pages/Home.tsx:15 | inserting a new value into an ascending list keeps it ascending |
| `StringOrder.Sort` | src/pages/Home.tsx:15 | sorting is a permutation of its input |
| `StringOrder.SortSameElements` | src/pages/Home.tsx:15 | sorting keeps exactly the values it was given |
| `StringOrder.SortStrictlySorted` | src/pages/Home.tsx:15 | sorting a list without repeats yields a strictly ascending list |
| `Seqs.Distinct` | src/pages/Home.tsx:15 | the `Set` of the makes holds each make of the input once and nothing else |
| `Seqs.Remove` | src/pages/Home.tsx:38 | removal keeps exactly the other values, is the identity when the value is absent, and keeps a list free of duplicates |
| `Seqs.RemoveIsSubsequence` | src/pages/Home.tsx:38 | what removal keeps stays in its original order |
| `Seqs.Take` | src/pages/Home.tsx:33 | `slice(0, n)` is the prefix of length min(n, length) |
| `Seqs.SubsequenceBounds` | src/pages/Home.tsx:25-32 | a subsequence is no longer than its sequence, and its elements come from it |
| `Vehicles.FuelEconomy` | src/data/vehicles.ts:27 | the fuel-economy text is the city digits, a single slash, then the highway digits |
| `Vehicles.ParseFuelEconomyRoundTrip` | src/data/vehicles.ts:27 | the "city/highway" text reads back to the two numbers it was built from |
| `Vehicles.MakeVehicle` | src/data/vehicles.ts:21-31 | record `i` has id `i + 1`; its make is one of the ten makes; its model is one of the ten categories, a space and one letter A to Z; year is in [2020, 2024], price in [20000, 79999], horsepower in [150, 449]; fuel economy is canonical "city/highway" with city in [20, 39] and highway in [25, 44] |
| `Vehicles.GenerateVehicles` | src/data/vehicles.ts:17-32 | exactly `count` records; record `i` has id `i + 1` and every field in its range |
| `Vehicles.GeneratedIdsDense` | src/data/vehicles.ts:21-22 | every id lies in 1..count and no two records share an id |
| `Home.MatchesMake` | src/pages/Home.tsx:26 | with no make selected every vehicle passes; otherwise exactly the vehicles of a selected make pass |
| `Home.MatchesSearch` | src/pages/Home.tsx:27-30 | an empty query matches everything; a query found verbatim in the make or the model matches in any case; a non-empty match is no longer than the make, the model or the year text |
| `Home.Passes` | src/pages/Home.tsx:25-31 | no selection and no query let every vehicle through; with makes selected, only vehicles of those makes pass |
| `Home.Filter` | src/pages/Home.tsx:25-32 | every kept vehicle is from the catalog and passes both tests; every catalog vehicle passing both tests is kept |
| `Home.Positions` | src/pages/Home.tsx:25-32 | lists, in ascending order, exactly the catalog positions whose vehicle passes both tests |
| `Home.FilterAtPositions` | src/pages/Home.tsx:25-32 | the filtered list is the catalog read at exactly the passing positions, in increasing order |
| `Home.FilterIsSubsequence` | src/pages/Home.tsx:25-32 | the filtered list is a subsequence of the catalog (catalog order kept) |
| `Home.FilterMonotone` | src/pages/Home.tsx:25-32 | a weaker test keeps every vehicle a stronger one keeps, in the same order |
| `Home.FilterExtensional` | src/pages/Home.tsx:25-32 | two tests that agree on every catalog vehicle produce the same list |
| `Home.FilterEverything` | src/pages/Home.tsx:26-27 | no makes selected and an empty query give the whole catalog |
| `Home.SelectionNarrows` | src/pages/Home.tsx:26 | any selection yields a subsequence of what the empty selection yields, so it is no longer |
| `Home.AddedMakeWidens` | src/pages/Home.tsx:26 | with some make selected, adding a make never removes a vehicle |
| `Home.ClearedSearchWidens` | src/pages/Home.tsx:27 | clearing the query never removes a vehicle |
| `Home.FilterDependsOnSelectedSet` | src/pages/Home.tsx:26 | selections with the same makes filter alike, whatever their order or repetition |
| `Home.SearchIgnoresQueryCase` | src/pages/Home.tsx:27-30 | lower-casing the query does not change the search test, including the raw year test |
| `Home.FilterIgnoresQueryCase` | src/pages/Home.tsx:27-30 | lower-casing the query does not change the filtered list |
| `Home.Displayed` | src/pages/Home.tsx:33 | the shown list is a prefix of the filtered list, of length min(filtered length, page × 8) |
| `Home.LoadMoreExtends` | src/pages/Home.tsx:43-45 | one more page keeps what was shown as a prefix; while a filtered vehicle is hidden, it shows strictly more |
| `Home.FirstPagesOfCatalog` | src/pages/Home.tsx:26-33 | nothing selected and no query: page 1 shows the first 8 catalog vehicles and page 2 the first 16 (or all, if fewer) |
| `Home.SingleToyotaShown` | src/pages/Home.tsx:25-33 | a one-vehicle catalog (Toyota, Sedan A, 2021) with "Toyota" selected and "2021" searched shows that vehicle |
| `Home.Toggle` | src/pages/Home.tsx:37-39 | after a toggle, the make is selected iff it was not before; other makes are unchanged; no duplicates are introduced |
| `Home.ToggleTwice` | src/pages/Home.tsx:37-39 | toggling twice restores the selected makes as a set, and the identical sequence when the make was absent |
| `Home.ToggleTwiceSameFilter` | src/pages/Home.tsx:36-41 | toggling the same make twice restores the filtered list |
| `Home.CatalogMakes` | src/pages/Home.tsx:15 | `vehicles.map(v => v.make)` has one entry per vehicle, and a make is in it exactly when some catalog vehicle has that make |
| `Home.AllMakes` | src/pages/Home.tsx:15 | the make buttons are strictly ascending, hold no duplicates, and are exactly the makes occurring in the catalog |
| `Home.GeneratedMakesListed` | src/data/vehicles.ts:18-23 | on a generated catalog, every make button is one of the ten listed makes |
| `Home.BrowseView.constructor` | src/pages/Home.tsx:9-22 | after mounting: nothing selected, page 1, the location's search text, and the first page shown |
| `Home.BrowseView.Navigate` | src/pages/Home.tsx:17-22 | sets the query to the location's search text and the page to 1; keeps the selection; recomputes the shown list |
| `Home.BrowseView.ToggleMake` | src/pages/Home.tsx:36-41 | for a make of the catalog's buttons: the selection becomes `Toggle` of the old one and the page 1; the query is kept; `selectedMakes` stays duplicate-free and within the catalog's makes |
| `Home.BrowseView.LoadMore` | src/pages/Home.tsx:43-45 | while the button is shown: the page is the old page plus 1 and nothing else changes; the old shown list is a proper prefix of the new one, so every press reveals at least one more vehicle |
| `Home.BrowseView.LoadMoreVisible` | src/pages/Home.tsx:96 | the button shows iff page × 8 is less than the filtered length; once it is hidden, the whole filtered list is shown |

## Left out

- Rendering: the JSX, the card markup, the links to `/review/{id}`, and the `toLocaleString`/`toFixed` formatting (src/pages/Home.tsx:47-129). These are UI output.
- React's scheduling of `useState` and `useEffect`. Each handler is one atomic state update, followed at once by the filter effect.
- The constructor stands for the state after mounting. The empty `displayedVehicles` before the first effect run is not modelled.
- `Home.BrowseView.Navigate` stands for one run of the location effect. The model does not capture that React skips the effect when the location's query string is unchanged.
- Query-string parsing with `URLSearchParams` (src/pages/Home.tsx:18-19). The search text is an input; a missing parameter is `""`.
- `Math.random` itself. Each draw is a caller-supplied integer in `[0, k)`.
- The floating-point `rating` field (src/data/vehicles.ts:30).
- The image URL is built from its make draw, but nothing is proved about it.
- `getVehicleImage` and the `onError` fallback image (src/data/vehicles.ts:36-43, src/pages/Home.tsx:75). These are asynchronous browser image loading.
- `Text.LowerChar`: only ASCII letters are lower-cased; JavaScript's full Unicode `toLowerCase` is not modelled.
- `Text.IntToString`: integers from 10^21 up, which JavaScript prints in exponent notation, and integers beyond 2^53, which it does not hold exactly, are written as plain digits. Every generated year is in [2020, 2024].
- `StringOrder.Less`: characters compare by code point. JavaScript's `sort` compares UTF-16 code units. The two orders agree on every Basic Multilingual Plane character, which covers every make here.
- The load-more test at src/pages/Home.tsx:96 repeats the filter of lines 25-32. It is modelled once, as `Filter`.
