# Calgary dog registrations: a verified model of the store's queries

`CalgaryDogStore` holds one read-only table of dog registrations. Each record
gives a Year, a Month label, a Breed and a non-negative Total (dogs of that
breed registered in that month of that year). For one breed at a time the store
answers five reports:

- the years in which the breed appears;
- its total registrations;
- its share of each of the years 2021, 2022 and 2023;
- its share of all registrations;
- the months in which it is the top breed.

It also derives two class-level values: the distinct breed list, which is used
to validate input, and a ten-per-line rendering of that list for the prompt.

The model works on values. The table is a `seq<Record>` and every query is a
Dafny function over it; the breed that the store object fixes once in its
constructor is a parameter. It is split into two modules:

- `Sequences` (Sequences.dfy): the table primitives the queries are built from.
  `Where` is a boolean row mask. `Project` takes a column. `Distinct` is
  order-preserving de-duplication, the behaviour of `unique`. `Join` is string
  joining.
- `CalgaryDogStore` (CalgaryDogStore.dfy): the records, the queries and the
  lemmas about them.

Percentages are exact `real` values (`Percent(part, whole)` satisfies
`r * whole == 100 * part`), not floats.

The popular-months report follows the code: a month is reported when the
breed's summed Total for (month, breed) equals the largest such sum over all
breeds of that month. Ties therefore report a month for several breeds. There is
no threshold: a month is reported only when the breed's sum equals the month's
maximum.

## Model

| member | source | states |
|---|---|---|
| `Sequences.Distinct` | CalgaryDogsStore.py:16 | the result holds exactly the values of the input, each once (no duplicates) |
| `Sequences.DistinctKeepsFirstAppearanceOrder` | CalgaryDogsStore.py:16 | distinct values keep first-appearance order: an earlier one first occurs strictly earlier in the input |
| `Sequences.Where` | CalgaryDogsStore.py:37 | a row is kept exactly when it is in the table and the mask selects it; never more rows than the table |
| `Sequences.WhereCounts` | CalgaryDogsStore.py:45 | every selected row is kept as many times as it occurs in the table, and no unselected row is kept, so sums over the filtered table count repeated rows |
| `Sequences.WhereAppend` | CalgaryDogsStore.py:37 | masking a concatenation masks each part and concatenates the results, so kept rows stay in their original order |
| `Sequences.Project` | CalgaryDogsStore.py:37 | the column has one entry per row, entry i is row i's value, and a value is in the column exactly when some row has it |
| `Sequences.WhereAll` | CalgaryDogsStore.py:62 | a mask that selects every row returns the table unchanged |
| `Sequences.JoinFrom` | CalgaryDogsStore.py:17 | joining parts k onwards gives part k, then the separator and the joined rest (nothing more after the last part) |
| `Sequences.JoinConcat` | CalgaryDogsStore.py:17 | joining two non-empty runs of parts puts exactly one separator between their joined texts |
| `CalgaryDogStore.SumTotalAppend` | CalgaryDogsStore.py:45 | the Total of two tables put together is the sum of their Totals |
| `CalgaryDogStore.Breeds` | CalgaryDogsStore.py:16 | the breed list has no duplicates and contains a breed exactly when some record has it |
| `CalgaryDogStore.IsBreedNotInData` | CalgaryDogsStore.py:20-27 | true exactly when no record has the given breed |
| `CalgaryDogStore.RecordBreedIsKnown` | CalgaryDogsStore.py:27 | the check is false for the breed of every record |
| `CalgaryDogStore.TopYears` | CalgaryDogsStore.py:36-37 | year y is listed exactly when some record has this breed and year y, and each year is listed once |
| `CalgaryDogStore.TotalRegistration` | CalgaryDogsStore.py:44-45 | the breed's total is at most the grand total, and is positive only if the breed has records |
| `CalgaryDogStore.SumTotalWhereAtMost` | CalgaryDogsStore.py:45 | the Total of any filtered table is at most the Total of the whole table |
| `CalgaryDogStore.NoBreedNoRegistrations` | CalgaryDogsStore.py:45 | a breed without records has total 0 |
| `CalgaryDogStore.SumOverCoveringBreeds` | CalgaryDogsStore.py:44-45 | for a duplicate-free list covering every record's breed, the breeds' totals add up to the table's Total |
| `CalgaryDogStore.BreedTotalsAddUpToGrandTotal` | CalgaryDogsStore.py:44-45 | the totals of all distinct breeds add up to the grand total |
| `CalgaryDogStore.Percent` | CalgaryDogsStore.py:56 | the ratio times the whole is 100 times the part; it is non-negative, and at most 100 when the part does not exceed the whole |
| `CalgaryDogStore.PercentAdd` | CalgaryDogsStore.py:56 | percentages of one whole add like their parts |
| `CalgaryDogStore.PercentExtremes` | CalgaryDogsStore.py:56 | the share is 100 exactly when part equals whole, and 0 exactly when the part is 0 |
| `CalgaryDogStore.Share` | CalgaryDogsStore.py:54-56 | a breed's share of a table lies in [0, 100]; it is 0 exactly when the breed registered nothing there, and 100 exactly when the breed accounts for every registration |
| `CalgaryDogStore.SumOfSharesIsPercentOfSum` | CalgaryDogsStore.py:56 | the sum of several breeds' shares is the share of their summed totals |
| `CalgaryDogStore.SharesOfCoveringBreedsAddUpTo100` | CalgaryDogsStore.py:54-56 | for a duplicate-free list covering every record's breed, the shares add up to exactly 100 |
| `CalgaryDogStore.YearlyPercRegistration` | CalgaryDogsStore.py:52-56 | one entry for each of 2021, 2022 and 2023, in that order; each entry is the breed's total in that year times 100 over the year's total, and lies in [0, 100] |
| `CalgaryDogStore.YearSharesAddUpTo100` | CalgaryDogsStore.py:52-56 | for a year with registrations, the yearly shares of all distinct breeds add up to exactly 100 |
| `CalgaryDogStore.Years` | CalgaryDogsStore.py:62 | the distinct years have no duplicates and contain a year exactly when some record has it |
| `CalgaryDogStore.AllYearData` | CalgaryDogsStore.py:62 | filtering by "year is one of the table's years" returns the whole table, every row in order |
| `CalgaryDogStore.TotalPercRegistration` | CalgaryDogsStore.py:62-65 | the overall share is the breed's total times 100 over the grand total, and lies in [0, 100] |
| `CalgaryDogStore.TotalSharesAddUpTo100` | CalgaryDogsStore.py:62-65 | the overall shares of all distinct breeds add up to exactly 100 |
| `CalgaryDogStore.MaxRegistration` | CalgaryDogsStore.py:72 | no listed breed's total exceeds the result, and for a non-empty list some listed breed attains it |
| `CalgaryDogStore.MonthMax` | CalgaryDogsStore.py:71-72 | no (month, breed) group of the month exceeds the month's maximum, and when the month has records some group attains it |
| `CalgaryDogStore.HasGroupInMonth` | CalgaryDogsStore.py:71 | a (month, breed) group exists exactly when the month's rows contain the breed |
| `CalgaryDogStore.PopularMonths` | CalgaryDogsStore.py:71-75 | month m is reported exactly when the breed has records in m and no breed's summed Total in m is larger than the breed's |
| `CalgaryDogStore.EveryMonthHasATopBreed` | CalgaryDogsStore.py:71-75 | every month present in the table is reported for at least one breed |
| `CalgaryDogStore.TopBreedsTie` | CalgaryDogsStore.py:75 | two breeds reported for the same month have the same summed Total in it |
| `CalgaryDogStore.Reshape` | CalgaryDogsStore.py:17 | when the breed count is a multiple of ten, the breeds form count/10 rows of ten names, read row by row: name j of row k is breed 10k + j |
| `CalgaryDogStore.RowLines` | CalgaryDogsStore.py:17 | one line per row; line k is names 10k to 10k + 9 joined by ", " |
| `CalgaryDogStore.LayoutOfRows` | CalgaryDogsStore.py:17 | from the start of row k, the rendered text is rows k onwards, each joined by ", ", with ",\n" between rows |
| `CalgaryDogStore.RowLinesJoinIsLayout` | CalgaryDogsStore.py:17 | the row lines joined by ",\n" equal the name-by-name reference layout |
| `CalgaryDogStore.BreedsHelp` | CalgaryDogsStore.py:17 | the breed list text shows every distinct breed once, in order; each is followed by ",\n" when it ends a row of ten, by ", " otherwise, and by nothing when it is the last |

## Left out

- Loading the spreadsheet (CalgaryDogsStore.py:15) is file I/O. The table is an input sequence instead.
- The `print` calls and the six-decimal float formatting of the shares are left out. The model computes the values as exact reals, so it does not model floating-point rounding.
- The order in which the grouping emits months is left out. `PopularMonths` returns a set of month labels.
- calgary_dogs.py (the console prompt, upper-casing of the input, the retry loop and its messages) is not part of this model. Only the membership check it relies on is modelled.
- YearlyPercRegistration: requires each of 2021, 2022 and 2023 to have a positive total. The source divides by that total and would yield a non-finite value when it is 0.
- TotalPercRegistration: requires a positive grand total, for the same reason.
- Share: requires the table it is taken over to have a positive total, for the same reason.
- Reshape: requires the number of distinct breeds to be a multiple of ten. The source's reshape raises an error otherwise, and that error path is not modelled.
- Integer widths of the table's columns are not modelled. Totals are unbounded naturals.
