# Healthfolio cost estimator — Dafny model

Healthfolio looks up the cost of hospital procedures in CMS Medicare data and
lets a user build a running cost estimate. This project models its two pieces
of pure logic and proves properties about them.

- **The CMS row normaliser** (`processCMSData`). It takes the rows of the cost
  table, each a map from column name to cell text, and builds two things. The
  first is the location list: `"National"` followed by the distinct non-empty
  `Geography` values. The second is the procedure catalogue keyed by
  `DRG_Code`. A row counts only when its code, description and payment are
  present and the payment still reads as a number after every character other
  than a digit or `.` is removed. Each valid row writes one cost: the national
  average when its geography is absent, empty or `"National"`, and the
  override for its geography otherwise. Later rows win.
- **The estimate logic** of the lookup page. This covers the search filter,
  set-like add and remove on the ordered selection, per-procedure cost
  resolution with fallback to the national cost, and the running total. The
  page's state (`selectedProcedures`, `isUsingLocation`, `location`,
  `searchTerm`) is passed in as explicit parameters.

Modules:

| file | module | contents |
|---|---|---|
| `wrappers.dfy` | `Wrappers` | `Option`, standing for JavaScript's `NaN` / `undefined` results |
| `seqs.dfy` | `Seqs` | first-seen de-duplication (an insertion-ordered `Map` used as a set), `filter`, subsequences |
| `text.dfy` | `Text` | ASCII `toLowerCase`, `includes` |
| `payment.dfy` | `Payment` | payment normalisation and the decimal reading done by `parseFloat` |
| `data_parser.dfy` | `DataParser` | rows, procedures, `processCMSData` and its per-row reference definitions |
| `estimate.dfy` | `Estimate` | search, add/remove, cost resolution, total |

The loader is modelled as the source writes it: a first pass collects
geographies, and a second pass folds over the rows (`Step`, `ProcessRows`).
The JavaScript `Map` from code to procedure is an association list in
insertion order. The properties are stated against reference definitions
written per row rather than per loop iteration:

- `FirstName` is the description on the first valid row of a code.
- `LastCost` is the cost on the last valid row that writes a given code at a
  given location.
- `ValidCodes` lists the codes of the valid rows in row order.

`ProcessRowsSummarises` proves that the fold computes exactly these.

Some of the code's behaviour is easy to misread; the model keeps it as written:

- Only three cells are required: code, description and payment. A missing or
  empty `Geography` is not an error; it means national.
- An override is used only when it is truthy. So an override of `0` falls back
  to the national cost, just like a missing one.
- A row whose `Geography` is literally `"National"` adds a second `"National"`
  to the location list. The list of distinct geographies is built before the
  sentinel is prepended, so nothing removes the duplicate.
- Geographies are taken from every row, including rows later rejected as
  invalid.

Cell truthiness is modelled as "the column is present and its text is not
empty". `parseFloat` is modelled on the strings it actually receives, which
hold only digits and points. On such a string it reads the longest prefix of
the form `digits`, `digits.`, `digits.digits` or `.digits`. It yields NaN
(`None` here) when that prefix holds no digit, so `"."`, `""` and `"..5"` all
fail.

## Model

| member | source | states |
|---|---|---|
| `DataParser.ProcessCMSData` | healthfolio/src/utils/dataParser.js:26-85 | The location list starts with `"National"`. Procedure codes are pairwise distinct and each procedure's id equals its code. A code is catalogued exactly when some valid row carries it. |
| `DataParser.Geographies` | healthfolio/src/utils/dataParser.js:34-38 | A string is among the collected geographies exactly when some row, valid or not, has it as a non-empty `Geography`. The empty string never is. |
| `DataParser.AvailableLocations` | healthfolio/src/utils/dataParser.js:34-44 | The list is `"National"` first, then geographies without repeats and without `""`. Its tail holds exactly the non-empty geographies of all rows. |
| `DataParser.LocationsInFirstSeenOrder` | healthfolio/src/utils/dataParser.js:34-41 | Geographies after the sentinel are ordered by their first row: for any two, some row lists the earlier one before any row lists the later one. |
| `DataParser.NationalRowListedTwice` | healthfolio/src/utils/dataParser.js:34-44 | A row whose geography is literally `"National"` makes `"National"` appear again after position 0. |
| `DataParser.ParseRow` | healthfolio/src/utils/dataParser.js:50-60 | A row is valid exactly when code, description and payment are present and the payment reads as a number. A valid row's location is `"National"` exactly when its geography is absent, empty or `"National"`; otherwise it is the row's geography. Its cost is the parsed payment and is never negative. |
| `DataParser.FindCode` | healthfolio/src/utils/dataParser.js:62-72 | Returns the first position holding the code, or the length when no procedure has it. |
| `DataParser.Step` | healthfolio/src/utils/dataParser.js:49-79 | One iteration of the grouping loop, with `Record` as the single-field write of lines 74-78. An invalid row changes nothing. A valid row touches only the procedure of its code, appending a fresh one when the code is new. That procedure keeps its id, code and name, and exactly one cost field changes: the national cost for a national row, otherwise the override for the row's location, with all other overrides unchanged. |
| `DataParser.ProcessRows` | healthfolio/src/utils/dataParser.js:47-79 | The second loop over the rows: at most one procedure per row, each with id equal to its code. What each procedure holds is stated by `ProcessRowsSummarises`. |
| `DataParser.ProcessRowsSummarises` | healthfolio/src/utils/dataParser.js:47-84 | After any prefix of the rows, the codes are the first-seen de-duplication of the valid codes. Each procedure has `id == code`, the first valid row's name, the last national row's cost or 0, and for every other location an override exactly when a valid row wrote one, equal to the last such row's cost. |
| `DataParser.InvalidRowIgnored` | healthfolio/src/utils/dataParser.js:50-60 | Inserting an invalid row anywhere leaves the procedure catalogue unchanged. |
| `DataParser.ProceduresInFirstSeenOrder` | healthfolio/src/utils/dataParser.js:62-82 | Procedures are listed in the order in which their codes first appear among the codes of the valid rows. |
| `DataParser.ProceduresInFirstRowOrder` | healthfolio/src/utils/dataParser.js:62-82 | Procedures are listed in the order of each code's first valid row: for any two, the earlier one's code has a valid row before any valid row of the later one's. |
| `DataParser.NameFromFirstValidRow` | healthfolio/src/utils/dataParser.js:62-69 | A procedure's name is the description on the first valid row of its code, which no earlier valid row carries; an earlier invalid row with the same code has no effect. |
| `DataParser.NationalCostFromLastRow` | healthfolio/src/utils/dataParser.js:67-75 | The national cost is 0 when no valid national row has the code. Otherwise it is the cost of the last such row. |
| `DataParser.LocationHasOverride` | healthfolio/src/utils/dataParser.js:74-78 | A location has an override exactly when it is not `"National"` and some valid row of the code names it. |
| `DataParser.LocationCostFromLastRow` | healthfolio/src/utils/dataParser.js:76-77 | An override equals the cost of the last valid row of the code that names the location. |
| `DataParser.NoRegionalRowsNoOverrides` | healthfolio/src/utils/dataParser.js:67-78 | A code whose valid rows are all national has an empty override map. |
| `DataParser.CostsNonNegative` | healthfolio/src/utils/dataParser.js:58-78 | Every national cost and override in the catalogue is at least 0. |
| `Payment.StripAmount` | healthfolio/src/utils/dataParser.js:58 | The result has only digits and points, and is a subsequence of the input in the original order. |
| `Payment.StripAmountCounts` | healthfolio/src/utils/dataParser.js:58 | Every digit and point of the input is kept, as often as it occurs, and every other character is removed. Together with the subsequence property this pins the result. |
| `Payment.ParseDecimalPrefix` | healthfolio/src/utils/dataParser.js:58-60 | A number is read exactly when the string starts with a digit, or with a point followed by a digit. The number is never negative; its value is stated by `ParseOfDecimal` and `ParseOfWhole`. |
| `Payment.ParseAmount` | healthfolio/src/utils/dataParser.js:58-60 | A payment that reads as a number is never negative and contains at least one digit. |
| `Payment.ParseOfRenderedNat` | healthfolio/src/utils/dataParser.js:58 | Reading back the decimal rendering of a whole number gives that number. |
| `Payment.ParseOfDecimal` | healthfolio/src/utils/dataParser.js:58 | `whole.frac` with at least one digit, followed by anything that does not start with a digit, reads as `whole + 0.frac`; either side may be empty, so `".50"` reads as 0.5. |
| `Payment.ParseOfWhole` | healthfolio/src/utils/dataParser.js:58 | A run of digits followed by neither a digit nor a point reads as its value, leading zeros included. |
| `Payment.ParseAmountLeadingPoint` | healthfolio/src/utils/dataParser.js:58 | `"$.50"` reads as 0.5. |
| `Payment.ParseAmountLeadingZeros` | healthfolio/src/utils/dataParser.js:58 | `"007"` reads as 7. |
| `Payment.ParseAmountCurrencyExample` | healthfolio/src/utils/dataParser.js:58 | `"$12,345.67*"` reads as 12345.67. |
| `Payment.ParseAmountNotAvailable` | healthfolio/src/utils/dataParser.js:58-60 | `"N/A"` does not read as a number, so its row is dropped. |
| `Payment.ParseAmountSecondPoint` | healthfolio/src/utils/dataParser.js:58 | `"1.2.3"` reads as 1.2: a second point ends the number. |
| `Text.Lower` | healthfolio/src/components/TheBigBabe.js:46-48 | `toLowerCase` on ASCII: same length, every capital lowered, every other character kept. |
| `Text.IncludesIff` | healthfolio/src/components/TheBigBabe.js:48 | `includes` holds exactly when the term occurs at some position of the string. |
| `Estimate.Search` | healthfolio/src/components/TheBigBabe.js:40-52 | An empty term gives no results. Results are always a subsequence of the catalogue. A procedure is in the results exactly when the term is non-empty and the procedure's lower-cased name or unchanged code contains the lower-cased term. |
| `Estimate.SearchKeepsEveryMatch` | healthfolio/src/components/TheBigBabe.js:46-49 | For a non-empty term, every matching procedure is kept as often as the catalogue lists it, and every other procedure is dropped. |
| `Estimate.SearchIgnoresTermCase` | healthfolio/src/components/TheBigBabe.js:46 | Terms equal up to ASCII case give the same results. |
| `Estimate.SearchLoweredTerm` | healthfolio/src/components/TheBigBabe.js:46 | Typing the term already lower-cased gives the same results. |
| `Estimate.SearchKneeExample` | healthfolio/src/components/TheBigBabe.js:40-52 | `"kNeE"` finds "Knee Replacement" and not "Hip Replacement". |
| `Estimate.CodeNotFoundByUpperCase` | healthfolio/src/components/TheBigBabe.js:46-48 | A procedure whose code starts with a capital is not found by typing that code when the capital's lower-case form occurs neither in the lower-cased name nor in the code, because only the term is lower-cased. |
| `Estimate.UpperCaseCodeNotFound` | healthfolio/src/components/TheBigBabe.js:46-48 | A procedure with code `K1` and name `x` is not found by typing `K1`. |
| `Estimate.AddProcedure` | healthfolio/src/components/TheBigBabe.js:75-79 | The old selection is a prefix of the result. The result grows by one, the added procedure at the end, exactly when its id was absent. The id is selected afterwards, and unique ids stay unique. |
| `Estimate.AddIdempotent` | healthfolio/src/components/TheBigBabe.js:75-79 | Adding a second procedure with the same id changes nothing. |
| `Estimate.RemoveProcedure` | healthfolio/src/components/TheBigBabe.js:82-84 | No entry with the id remains. The result is a subsequence of the selection, holds exactly the entries with other ids, and keeps ids unique. |
| `Estimate.RemoveKeepsOthers` | healthfolio/src/components/TheBigBabe.js:82-84 | Each entry with another id stays exactly as often as it was selected. |
| `Estimate.RemoveUndoesAdd` | healthfolio/src/components/TheBigBabe.js:75-84 | Removing a freshly added id restores the previous selection. |
| `Estimate.GetProcedureCost` | healthfolio/src/components/TheBigBabe.js:97-102 | The cost is the national cost or a non-zero override for the chosen location. It is the national cost when location mode is off, when `"National"` is chosen, when the override is missing, and when the override is 0. Otherwise it is the override. |
| `Estimate.ZeroOverrideExample` | healthfolio/src/components/TheBigBabe.js:98-101 | A Texas override of 0 falls back to the national cost. |
| `Estimate.CalculateTotalCost` | healthfolio/src/components/TheBigBabe.js:87-94 | The `reduce`, with its own copy of the condition, equals the sum of the per-procedure costs the page shows. An empty selection totals 0. |
| `Estimate.TotalWithoutLocationIsNational` | healthfolio/src/components/TheBigBabe.js:89-92 | With location mode off, whatever the location, or with `"National"` chosen, the total is the sum of national costs. |
| `Estimate.TotalAfterAdd` | healthfolio/src/components/TheBigBabe.js:75-94 | Adding raises the total by the procedure's cost, or by nothing when its id is already selected. |
| `Estimate.TotalAfterRemove` | healthfolio/src/components/TheBigBabe.js:82-94 | Removing an id lowers the total by the costs of the entries that carry it. |
| `Estimate.TotalNonNegative` | healthfolio/src/components/TheBigBabe.js:87-94 | A selection whose costs are never negative has a total that is never negative. |
| `Estimate.TotalExample` | healthfolio/src/components/TheBigBabe.js:87-102 | National costs 100 and 250 total 350. Texas overrides 90 and 230 total 320. A third procedure without a Texas override adds its national cost. |

## Left out

- Fetching the CSV file, `response.text()`, the Promise wrapper and the CSV tokeniser (`Papa.parse`), including the catch path that returns `[]`. These are I/O and a foreign library; the model starts from the already-split rows.
- React state, `useEffect` scheduling, the loading and error flags, and all markup. The state is passed to each operation as parameters.
- The hard-coded fallback catalogue `loadMockData`. It is fixture data, not logic; its numeric ids do not fit the string ids of parsed procedures.
- `formatCurrency` (`Intl.NumberFormat`), which is presentation only.
- IEEE-754 doubles. Costs are exact reals, so rounding of long decimals and sums is not modelled.
- `parseFloat` on general strings (signs, exponents, whitespace, `Infinity`). It is only ever applied to strings of digits and points.
- Unicode case mapping. `toLowerCase` is modelled on ASCII letters only.
- Console logging.
- Lookups on plain JavaScript objects that hit inherited keys, such as a location named `constructor`, and assignments to `__proto__`, which JavaScript ignores whereas `Record` stores an override for that key. `locations` is modelled as a plain map.
- Object identity. Procedures are values here, whereas the page holds references into the shared catalogue; since the catalogue is never changed after loading, the two agree.
